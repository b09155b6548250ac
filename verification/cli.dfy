/** The command line shared by both solver crates: the program name, the
    day and the input file's name. */
module Cli {
  import opened Text
  import opened Numbers

  datatype Config = Config(day: int, filename: string)

  datatype Result<T> = Ok(value: T) | Err(message: string)

  const MissingArguments: string := "Day and filename arguments required"
  const TooManyArguments: string := "Too many arguments"

  /** The day used when the argument is not an `i32`. */
  const DefaultDay: int := 1

  /** `Config::new`. */
  function NewConfig(args: seq<string>): (r: Result<Config>)
    ensures |args| < 3 ==> r == Err(MissingArguments)
    ensures |args| > 3 ==> r == Err(TooManyArguments)
    ensures r.Ok? <==> |args| == 3
    ensures r.Ok? ==> r.value.filename == args[2]
    ensures r.Ok? ==> I32Min <= r.value.day <= I32Max
    ensures r.Ok? && ParseI32(args[1]).Some? ==> r.value.day == ParseI32(args[1]).value
    ensures r.Ok? && ParseI32(args[1]).None? ==> r.value.day == DefaultDay
  {
    if |args| < 3 then Err(MissingArguments)
    else if |args| > 3 then Err(TooManyArguments)
    else
      var day := match ParseI32(args[1]) case Some(d) => d case None => DefaultDay;
      Ok(Config(day, args[2]))
  }

  /** A day written as a numeral in `i32` range ("7", "+5", "-3", "007")
      and a file name are read back, whatever the program name. */
  lemma NewConfigReadsBack(program: string, day: string, filename: string)
    requires Numeral(day) && I32Min <= NumeralValue(day) <= I32Max
    ensures NewConfig([program, day, filename]) == Ok(Config(NumeralValue(day), filename))
  {
    ParseI32Numeral(day);
  }

  /** The canonical decimal rendering of every `i32` is such a numeral. */
  lemma NewConfigShowDay(program: string, day: int, filename: string)
    requires I32Min <= day <= I32Max
    ensures NewConfig([program, ShowInt(day), filename]) == Ok(Config(day, filename))
  {
    ParseShowSigned(day, I32Min, I32Max);
  }

  /** A day that is not a numeral ("", "x", "12a", "+") or whose value does
      not fit an `i32` ("99999999999") falls back to day 1. */
  lemma NewConfigDefault(args: seq<string>)
    requires |args| == 3
    requires !Numeral(args[1]) || !(I32Min <= NumeralValue(args[1]) <= I32Max)
    ensures NewConfig(args) == Ok(Config(DefaultDay, args[2]))
  {
    ParseI32Numeral(args[1]);
  }
}
