/** Day 2: password policies. Each line is `a-b c: password`: two numbers,
    a letter and the password. The first solver (src/day_2.rs) accepts a
    password when exactly one of the 1-based byte positions `a` and `b` holds
    the letter; the second (advent/src/day_2.rs) when the letter occurs
    between `a` and `b` times. Both count the accepted lines. */
module Passwords {
  import opened Text
  import opened Numbers

  datatype Policy = Policy(low: nat, high: nat, letter: char, password: string)

  // ---------------------------------------------------------------------------
  // The line format, shared by both solvers.

  /** Split on spaces, then the first token on `-`; both numbers parse as
      `usize`, the letter is the first character of the second token and the
      password is the third token. None wherever the source panics: fewer
      than three tokens, no `-`, a number that does not parse, or an empty
      second token. Tokens after the third are ignored. */
  function ParseLine(line: string): (r: Option<Policy>)
    ensures r.Some? ==> r.value.low <= UsizeMax && r.value.high <= UsizeMax
    ensures r.Some? ==> !Contains(r.value.password, " ")
  {
    var tokens := Split(line, " ");
    if |tokens| < 3 then None
    else
      var numbers := Split(tokens[0], "-");
      if |numbers| < 2 || |tokens[1]| == 0 then None
      else
        match (ParseUsize(numbers[0]), ParseUsize(numbers[1]))
        case (Some(low), Some(high)) => Some(Policy(low, high, tokens[1][0], tokens[2]))
        case _ => None
  }

  /** The line as the puzzle writes it. */
  function FormatLine(p: Policy): string
  {
    ShowNat(p.low) + "-" + ShowNat(p.high) + " " + [p.letter] + ":" + " " + p.password
  }

  /** A policy whose letter is not a space and whose password has no space
      can be written as a line. */
  predicate Writable(p: Policy)
  {
    p.low <= UsizeMax && p.high <= UsizeMax && p.letter != ' ' && Lacks(p.password, ' ')
  }


  /** The first token splits on `-` into the two numbers. */
  lemma NumbersToken(low: nat, high: nat)
    ensures Split(ShowNat(low) + "-" + ShowNat(high), "-") == [ShowNat(low), ShowNat(high)]
    ensures Lacks(ShowNat(low) + "-" + ShowNat(high), ' ')
  {
    var a, b := ShowNat(low), ShowNat(high);
    DigitsLack(a, '-');
    DigitsLack(b, '-');
    JoinTwo(a, b, "-");
    SplitOnChar([a, b], '-');
    DigitsLack(a, ' ');
    DigitsLack(b, ' ');
    LacksConcat(a, "-", ' ');
    LacksConcat(a + "-", b, ' ');
  }

  /** Parsing a written line gives its policy back. */
  lemma ParseFormatLine(p: Policy)
    requires Writable(p)
    ensures ParseLine(FormatLine(p)) == Some(p)
  {
    var numbers := ShowNat(p.low) + "-" + ShowNat(p.high);
    var word := [p.letter] + ":";
    NumbersToken(p.low, p.high);
    assert Split(FormatLine(p), " ") == [numbers, word, p.password] by {
      assert Lacks(word, ' ');
      JoinThree(numbers, word, p.password, " ");
      assert FormatLine(p) == Join([numbers, word, p.password], " ");
      SplitOnChar([numbers, word, p.password], ' ');
    }
    ParseShowUnsigned(p.low, UsizeMax);
    ParseShowUnsigned(p.high, UsizeMax);
  }

  // ---------------------------------------------------------------------------
  // `is_password_valid` (src/day_2.rs): exactly one of two positions.

  /** The byte at 1-based position `n` of the password is the letter. A byte
      is read as the character with that code, as `u8 as char` does. */
  predicate ByteIs(p: Policy, n: nat)
    requires 1 <= n <= Utf8Length(p.password)
  {
    Utf8(p.password)[n - 1] as int == p.letter as int
  }

  /** The rule as written: a password "too short" for the second position is
      rejected, but the guard `len + 1 >= second` lets `second == len + 1`
      through, and indexing then panics (None). A first position of 0 or past
      the end panics too. */
  function PositionsAsWritten(p: Policy): (r: Option<bool>)
  {
    var len := Utf8Length(p.password);
    if len + 1 >= p.high then
      if 1 <= p.low <= len && 1 <= p.high <= len then Some(ByteIs(p, p.low) != ByteIs(p, p.high))
      else None
    else Some(false)
  }

  /** `is_password_valid` as written. */
  function IsPasswordValid(line: string): Option<bool>
  {
    match ParseLine(line)
    case None => None
    case Some(p) => PositionsAsWritten(p)
  }

  /** The rule with the guard the comment describes, `len >= second`. */
  function Positions(p: Policy): (r: Option<bool>)
  {
    var len := Utf8Length(p.password);
    if len >= p.high then
      if 1 <= p.low <= len && 1 <= p.high then Some(ByteIs(p, p.low) != ByteIs(p, p.high))
      else None
    else Some(false)
  }

  /** The guard as written fails exactly on passwords one byte shorter than
      the second position: ... */
  lemma PositionsAsWrittenPanics(p: Policy)
    requires p.high == Utf8Length(p.password) + 1
    ensures PositionsAsWritten(p) == None
    ensures Positions(p) == Some(false)
  {
  }

  /** ... "1-4 a: abc" is such a line ... */
  lemma PositionsAsWrittenExample(line: string)
    requires line == "1-4 a: abc"
    ensures ParseLine(line) == Some(Policy(1, 4, 'a', "abc"))
    ensures PositionsAsWritten(Policy(1, 4, 'a', "abc")) == None
  {
    var p := Policy(1, 4, 'a', "abc");
    assert FormatLine(p) == line by {
      assert ShowNat(1) == "1" && ShowNat(4) == "4";
    }
    ParseFormatLine(p);
    ShortPasswordPanics(p);
  }

  lemma ShortPasswordPanics(p: Policy)
    requires p == Policy(1, 4, 'a', "abc")
    ensures PositionsAsWritten(p) == None
  {
    AsciiBytes(p.password);
    PositionsAsWrittenPanics(p);
  }

  /** ... and on every other line the two agree. */
  lemma PositionsAgree(p: Policy)
    requires p.high != Utf8Length(p.password) + 1
    ensures PositionsAsWritten(p) == Positions(p)
  {
  }

  /** With the corrected guard, a policy with `1 <= first <= second` never
      panics: the password is accepted exactly when it reaches the second
      position and exactly one of the two positions holds the letter. On an
      ASCII password the positions are characters. */
  lemma PositionsMeaning(p: Policy)
    requires 1 <= p.low <= p.high
    ensures Positions(p).Some?
    ensures Positions(p).value <==>
      p.high <= Utf8Length(p.password) && (ByteIs(p, p.low) != ByteIs(p, p.high))
    ensures IsAscii(p.password) ==> (Positions(p).value <==>
      p.high <= |p.password| && ((p.password[p.low - 1] == p.letter) != (p.password[p.high - 1] == p.letter)))
  {
    if IsAscii(p.password) {
      AsciiBytes(p.password);
    }
  }

  // ---------------------------------------------------------------------------
  // The occurrence rule (advent/src/day_2.rs).

  /** `data.matches(character).count()` between the two numbers. */
  function Occurs(p: Policy): bool
  {
    p.low <= Occurrences(p.password, p.letter) <= p.high
  }

  /** An empty range never accepts; a range from 1 up accepts only
      passwords holding the letter, and a range from 0 accepts every password
      without it. */
  lemma OccursMeaning(p: Policy)
    ensures p.low > p.high ==> !Occurs(p)
    ensures p.low > 0 && Occurs(p) ==> p.letter in p.password
    ensures p.low == 0 && p.letter !in p.password ==> Occurs(p)
  {
    OccurrencesBounds(p.password, p.letter);
  }

  // ---------------------------------------------------------------------------
  // The count of valid lines in each `run`.

  /** `PositionRule` is `is_password_valid` as written; `CorrectedPositionRule`
      is the same check with the guard its comment describes. */
  datatype Rule = PositionRule | CorrectedPositionRule | OccurrenceRule

  /** One line under a rule: None when parsing or checking panics. */
  function CheckLine(line: string, rule: Rule): Option<bool>
  {
    match ParseLine(line)
    case None => None
    case Some(p) =>
      match rule
      case PositionRule => PositionsAsWritten(p)
      case CorrectedPositionRule => Positions(p)
      case OccurrenceRule => Some(Occurs(p))
  }

  /** The loop of `run`: None when any line panics. */
  function CountValid(lines: seq<string>, rule: Rule): (r: Option<nat>)
    ensures r.Some? ==> r.value <= |lines|
  {
    if |lines| == 0 then Some(0)
    else
      match (CheckLine(lines[0], rule), CountValid(lines[1..], rule))
      case (Some(ok), Some(n)) => Some(if ok then n + 1 else n)
      case _ => None
  }

  /** What each line comes to under the rule. */
  function Checks(lines: seq<string>, rule: Rule): (r: seq<Option<bool>>)
    ensures |r| == |lines| && forall i :: 0 <= i < |lines| ==> r[i] == CheckLine(lines[i], rule)
  {
    seq(|lines|, i requires 0 <= i < |lines| => CheckLine(lines[i], rule))
  }

  /** The count is the number of accepted lines, defined when no line
      panics, and so at most the number of lines. */
  lemma {:induction false} CountValidMeaning(lines: seq<string>, rule: Rule)
    ensures CountValid(lines, rule).Some? <==> None !in Checks(lines, rule)
    ensures CountValid(lines, rule).Some? ==>
      CountValid(lines, rule).value == Occurrences(Checks(lines, rule), Some(true))
    ensures CountValid(lines, rule).Some? ==> CountValid(lines, rule).value <= |lines|
  {
    var checks := Checks(lines, rule);
    if |lines| > 0 {
      var tail := lines[1..];
      CountValidMeaning(tail, rule);
      assert checks[1..] == Checks(tail, rule);
      assert None in checks <==> checks[0] == None || None in checks[1..];
    }
    OccurrencesBounds(checks, Some(true));
  }

  /** The line does not parse to a password exactly one byte shorter than
      its second position. */
  predicate AwayFromEdge(line: string)
  {
    ParseLine(line).Some? ==>
      ParseLine(line).value.high != Utf8Length(ParseLine(line).value.password) + 1
  }

  /** The count `run` prints and the count with the corrected guard agree on
      every input without a password exactly one byte shorter than its second
      position. */
  lemma {:induction false} PositionCountsAgree(lines: seq<string>)
    requires forall k :: 0 <= k < |lines| ==> AwayFromEdge(lines[k])
    ensures CountValid(lines, PositionRule) == CountValid(lines, CorrectedPositionRule)
  {
    if |lines| > 0 {
      var tail := lines[1..];
      assert forall k :: 0 <= k < |tail| ==> tail[k] == lines[k + 1];
      PositionCountsAgree(tail);
      LineAgrees(lines[0]);
    }
  }

  lemma LineAgrees(line: string)
    requires AwayFromEdge(line)
    ensures CheckLine(line, PositionRule) == CheckLine(line, CorrectedPositionRule)
  {
    if ParseLine(line).Some? {
      PositionsAgree(ParseLine(line).value);
    }
  }

  /** An input holding "1-4 a: abc" makes `run` panic, while the corrected
      guard counts the line as invalid. */
  lemma RunShortPasswordPanics(line: string, lines: seq<string>)
    requires line == "1-4 a: abc" && lines == [line]
    ensures CountValid(lines, PositionRule) == None
    ensures CountValid(lines, CorrectedPositionRule) == Some(0)
  {
    var p := Policy(1, 4, 'a', "abc");
    PositionsAsWrittenExample(line);
    ShortPasswordPanics(p);
    PositionsAsWrittenPanics(p);
    OneLine(line, p, lines);
  }

  /** A single parsed line counts by its policy. */
  lemma OneLine(line: string, p: Policy, lines: seq<string>)
    requires ParseLine(line) == Some(p) && lines == [line]
    ensures CheckLine(line, PositionRule) == PositionsAsWritten(p)
    ensures CheckLine(line, CorrectedPositionRule) == Positions(p)
    ensures PositionsAsWritten(p) == None ==> CountValid(lines, PositionRule) == None
    ensures Positions(p) == Some(false) ==> CountValid(lines, CorrectedPositionRule) == Some(0)
  {
    assert lines[1..] == [];
  }

  // ---------------------------------------------------------------------------
  // The examples of src/day_2.rs.

  /** A written line with an ASCII password, checked by position. */
  lemma ExampleLine(line: string, p: Policy)
    requires Writable(p) && IsAscii(p.password) && line == FormatLine(p)
    requires 1 <= p.low <= p.high
    ensures IsPasswordValid(line) == PositionsAsWritten(p)
    ensures p.high <= |p.password| ==> (IsPasswordValid(line) ==
      Some((p.password[p.low - 1] == p.letter) != (p.password[p.high - 1] == p.letter)))
    ensures p.high > |p.password| + 1 ==> IsPasswordValid(line) == Some(false)
  {
    ParseFormatLine(p);
    AsciiBytes(p.password);
  }

  lemma ExampleTooShort(line: string)
    requires line == "1-10 x: xyz"
    ensures IsPasswordValid(line) == Some(false)
  {
    var p := Policy(1, 10, 'x', "xyz");
    assert line == FormatLine(p) by {
      assert ShowNat(1) == "1" && ShowNat(10) == "10";
    }
    assert Writable(p) && IsAscii(p.password);
    ExampleLine(line, p);
  }

  lemma ExampleNoLetter(line: string)
    requires line == "1-5 x: abcdef"
    ensures IsPasswordValid(line) == Some(false)
  {
    var p := Policy(1, 5, 'x', "abcdef");
    assert line == FormatLine(p) by {
      assert ShowNat(1) == "1" && ShowNat(5) == "5";
    }
    assert Writable(p) && IsAscii(p.password);
    ExampleLine(line, p);
  }

  lemma ExampleBoth(line: string)
    requires line == "1-5 a: abcdaf"
    ensures IsPasswordValid(line) == Some(false)
  {
    var p := Policy(1, 5, 'a', "abcdaf");
    assert line == FormatLine(p) by {
      assert ShowNat(1) == "1" && ShowNat(5) == "5";
    }
    assert Writable(p) && IsAscii(p.password);
    ExampleLine(line, p);
  }

  lemma ExampleFirst(line: string)
    requires line == "1-5 a: abcdef"
    ensures IsPasswordValid(line) == Some(true)
  {
    var p := Policy(1, 5, 'a', "abcdef");
    assert line == FormatLine(p) by {
      assert ShowNat(1) == "1" && ShowNat(5) == "5";
    }
    assert Writable(p) && IsAscii(p.password);
    ExampleLine(line, p);
  }

  lemma ExampleSecond(line: string)
    requires line == "1-5 e: abcdef"
    ensures IsPasswordValid(line) == Some(true)
  {
    var p := Policy(1, 5, 'e', "abcdef");
    assert line == FormatLine(p) by {
      assert ShowNat(1) == "1" && ShowNat(5) == "5";
    }
    assert Writable(p) && IsAscii(p.password);
    ExampleLine(line, p);
  }
}
