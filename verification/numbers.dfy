/** Decimal integers as Rust's `str::parse` reads them for the integer types
    the solvers use (`i32` and `usize`), and the decimal rendering that
    parsing inverts. */
module Numbers {
  import opened Text

  const I32Min: int := -0x8000_0000
  const I32Max: int := 0x7FFF_FFFF
  const UsizeMax: int := 0xFFFF_FFFF_FFFF_FFFF

  predicate IsDigit(c: char)
  {
    '0' <= c <= '9'
  }

  predicate AllDigits(s: string)
  {
    forall k :: 0 <= k < |s| ==> IsDigit(s[k])
  }

  /** Digits never contain a character that is not a digit. */
  lemma DigitsLack(digits: string, c: char)
    requires AllDigits(digits) && !IsDigit(c)
    ensures Lacks(digits, c)
  {
  }

  function Pow2(n: nat): (r: nat)
    ensures r >= 1
  {
    if n == 0 then 1 else 2 * Pow2(n - 1)
  }

  lemma {:induction false} Pow2Add(a: nat, b: nat)
    ensures Pow2(a + b) == Pow2(a) * Pow2(b)
  {
    if a > 0 {
      Pow2Add(a - 1, b);
    }
  }

  /** `v` shifted left by `k` bits, by doubling alone. */
  function Shift(v: nat, k: nat): nat
  {
    if k == 0 then v else 2 * Shift(v, k - 1)
  }

  /** Shifting multiplies by a power of two ... */
  lemma {:induction false} ShiftIsProduct(v: nat, k: nat)
    ensures Shift(v, k) == v * Pow2(k)
  {
    if k > 0 {
      ShiftIsProduct(v, k - 1);
      assert v * (2 * Pow2(k - 1)) == 2 * (v * Pow2(k - 1));
    }
  }

  /** ... so it distributes over addition ... */
  lemma {:induction false} ShiftAdd(a: nat, b: nat, k: nat)
    ensures Shift(a + b, k) == Shift(a, k) + Shift(b, k)
  {
    if k > 0 {
      ShiftAdd(a, b, k - 1);
    }
  }

  /** ... and shifts a power of two to a higher one. */
  lemma {:induction false} ShiftPow2(j: nat, k: nat)
    ensures Shift(Pow2(j), k) == Pow2(j + k)
  {
    if k > 0 {
      ShiftPow2(j, k - 1);
    }
  }

  /** The value of a run of decimal digits, most significant first. */
  function DigitsValue(s: string): nat
    requires AllDigits(s)
    decreases |s|
  {
    if |s| == 0 then 0
    else DigitsValue(s[..|s| - 1]) * 10 + ((s[|s| - 1] as int) - ('0' as int))
  }

  /** The shortest decimal rendering of `n`: digits only, no leading zero. */
  function ShowNat(n: nat): (s: string)
    ensures |s| > 0 && AllDigits(s)
    ensures |s| > 1 ==> s[0] != '0'
    ensures DigitsValue(s) == n
  {
    var last := ((n % 10) + ('0' as int)) as char;
    if n < 10 then [last]
    else
      var front := ShowNat(n / 10);
      var s := front + [last];
      assert s[..|s| - 1] == front;
      s
  }

  /** `-` before the digits of a negative number, nothing otherwise. */
  function ShowInt(n: int): string
  {
    if n < 0 then "-" + ShowNat(-n) else ShowNat(n)
  }

  /** Rust's `str::parse` for an unsigned type whose largest value is `max`:
      an optional `+`, then one or more ASCII digits, in range. */
  function ParseUnsigned(s: string, max: nat): (r: Option<nat>)
    ensures r.Some? ==> r.value <= max
    ensures r.Some? ==> |s| > 0 && (IsDigit(s[0]) || s[0] == '+')
  {
    var digits := if |s| > 0 && s[0] == '+' then s[1..] else s;
    if |digits| > 0 && AllDigits(digits) && DigitsValue(digits) <= max then Some(DigitsValue(digits))
    else None
  }

  /** Rust's `str::parse` for a signed type with range `min..=max`: an
      optional `+` or `-`, then one or more ASCII digits, in range. */
  function ParseSigned(s: string, min: int, max: int): (r: Option<int>)
    ensures r.Some? ==> min <= r.value <= max
    ensures r.Some? && r.value < 0 ==> |s| > 0 && s[0] == '-'
  {
    if |s| > 0 && s[0] == '-' then
      var digits := s[1..];
      if |digits| > 0 && AllDigits(digits) then
        var value: int := -(DigitsValue(digits) as int);
        if min <= value <= max then Some(value) else None
      else None
    else
      match ParseUnsigned(s, if max < 0 then 0 else max)
      case Some(v) => if min <= v <= max then Some(v) else None
      case None => None
  }

  function ParseI32(s: string): (r: Option<int>)
    ensures r.Some? ==> I32Min <= r.value <= I32Max
  {
    ParseSigned(s, I32Min, I32Max)
  }

  function ParseUsize(s: string): (r: Option<nat>)
    ensures r.Some? ==> r.value <= UsizeMax
  {
    ParseUnsigned(s, UsizeMax)
  }

  /** A decimal numeral: an optional `+` or `-`, then one or more digits. */
  predicate Numeral(s: string)
  {
    if |s| > 0 && (s[0] == '+' || s[0] == '-') then |s| > 1 && AllDigits(s[1..])
    else |s| > 0 && AllDigits(s)
  }

  /** The value a numeral denotes, whatever its range. */
  function NumeralValue(s: string): int
    requires Numeral(s)
  {
    if s[0] == '-' then -(DigitsValue(s[1..]) as int)
    else if s[0] == '+' then DigitsValue(s[1..])
    else DigitsValue(s)
  }

  /** What `parse::<i32>` accepts: exactly the numerals whose value fits,
      giving that value; every other text is an error. */
  lemma ParseI32Numeral(s: string)
    ensures ParseI32(s).Some? <==> Numeral(s) && I32Min <= NumeralValue(s) <= I32Max
    ensures ParseI32(s).Some? ==> ParseI32(s).value == NumeralValue(s)
  {
  }

  /** Parsing inverts rendering, for every value the type can hold. */
  lemma ParseShowUnsigned(n: nat, max: nat)
    requires n <= max
    ensures ParseUnsigned(ShowNat(n), max) == Some(n)
    ensures ParseUnsigned("+" + ShowNat(n), max) == Some(n)
  {
    assert ("+" + ShowNat(n))[1..] == ShowNat(n);
  }

  lemma ParseShowSigned(n: int, min: int, max: int)
    requires min <= n <= max
    ensures ParseSigned(ShowInt(n), min, max) == Some(n)
    ensures n >= 0 ==> ParseSigned("+" + ShowNat(n), min, max) == Some(n)
  {
    if n < 0 {
      assert ShowInt(n)[1..] == ShowNat(-n);
    } else {
      ParseShowUnsigned(n, max);
    }
  }

  /** An empty string, a lone sign, or a character other than a digit after
      the sign never parses. */
  lemma ParseRejects(s: string, min: int, max: int)
    requires |s| == 0 || s == "+" || s == "-" || (|s| > 0 && !IsDigit(s[0]) && s[0] != '+' && s[0] != '-')
    ensures ParseSigned(s, min, max) == None
    ensures ParseUnsigned(s, if max < 0 then 0 else max) == None
  {
  }
}
