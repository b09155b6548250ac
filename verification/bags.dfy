/** Day 7: luggage rules. A rule says which bags, and how many of each, a bag
    of one colour must hold. Two queries walk the rules: which colours can end
    up holding a given colour, and how many bags a given colour holds. */
module Bags {
  import opened Text
  import opened Numbers
  import opened Sorting

  datatype Contents = Contents(colour: string, count: int)

  datatype Rule = Rule(colour: string, inner: seq<Contents>)

  /** `Rule::default()`: what a line that is not a rule becomes. */
  const EmptyRule := Rule("", [])

  const Contain := " bags contain "

  // ---------------------------------------------------------------------------
  // The outer pattern `^(.*) bags contain (.*)\.$`.

  /** The last occurrence of `pat` in `s` starting at or before `i`. */
  function LastAtOrBefore(s: string, pat: string, i: int): (r: Option<nat>)
    ensures r.Some? ==> r.value <= i && OccursAt(s, pat, r.value)
    ensures forall j :: (if r.Some? then r.value < j else 0 <= j) && j <= i ==> !OccursAt(s, pat, j)
    decreases i + 1
  {
    if i < 0 then None
    else if OccursAt(s, pat, i) then Some(i)
    else LastAtOrBefore(s, pat, i - 1)
  }

  /** `line` reads as `<colour> bags contain <body>.` with no line break
      (the regex `.` does not match one). */
  predicate RuleShape(line: string, colour: string, body: string)
  {
    Lacks(line, '\n') && line == colour + Contain + body + "."
  }

  /** The captures of the outer pattern. `(.*)` is greedy, so the colour runs
      up to the last " bags contain " that still leaves room for the final
      '.', and the body never contains the phrase. */
  function MatchOuter(line: string): (r: Option<(string, string)>)
    ensures r.Some? ==> RuleShape(line, r.value.0, r.value.1) && !Contains(" " + r.value.1, Contain)
    ensures r.None? ==> forall colour, body :: !RuleShape(line, colour, body)
  {
    if !Lacks(line, '\n') || |line| == 0 || line[|line| - 1] != '.' then
      None
    else
      match LastAtOrBefore(line, Contain, |line| - 1 - |Contain|)
      case None =>
        NoPhraseNoRule(line);
        None
      case Some(i) =>
        var colour := line[..i];
        var body := line[i + |Contain|..|line| - 1];
        PhraseSplits(line, i);
        Some((colour, body))
  }

  /** Without the phrase before the final '.', the line is no rule. */
  lemma NoPhraseNoRule(line: string)
    requires |line| > 0
    requires forall j :: 0 <= j <= |line| - 1 - |Contain| ==> !OccursAt(line, Contain, j)
    ensures forall colour, body :: !RuleShape(line, colour, body)
  {
    ShapesHavePhrase(line);
  }

  /** A rule has the phrase right after its colour. */
  lemma ShapesHavePhrase(line: string)
    ensures forall colour, body :: RuleShape(line, colour, body) ==>
      |colour| <= |line| - 1 - |Contain| && OccursAt(line, Contain, |colour|)
  {
    forall colour, body | RuleShape(line, colour, body)
      ensures |colour| <= |line| - 1 - |Contain| && OccursAt(line, Contain, |colour|)
    {
      assert line[|colour|..|colour| + |Contain|] == Contain;
    }
  }

  /** Splitting at the last phrase before the final '.' gives a rule whose
      body lacks the phrase. */
  lemma PhraseSplits(line: string, i: nat)
    requires Lacks(line, '\n') && |line| > 0 && line[|line| - 1] == '.'
    requires i <= |line| - 1 - |Contain| && OccursAt(line, Contain, i)
    requires forall j :: i < j <= |line| - 1 - |Contain| ==> !OccursAt(line, Contain, j)
    ensures var colour, body := line[..i], line[i + |Contain|..|line| - 1];
      RuleShape(line, colour, body) && !Contains(" " + body, Contain)
  {
    var colour := line[..i];
    var body := line[i + |Contain|..|line| - 1];
    assert line == colour + Contain + body + ".";
    TailOccurrences(line, i);
  }

  /** An occurrence in the text after a phrase, from its last character on,
      is a later occurrence in the line. */
  lemma TailOccurrences(line: string, i: nat)
    requires i <= |line| - 1 - |Contain| && OccursAt(line, Contain, i)
    ensures var tail := " " + line[i + |Contain|..|line| - 1];
      forall j :: OccursAt(tail, Contain, j) ==>
        i < i + |Contain| - 1 + j <= |line| - 1 - |Contain| && OccursAt(line, Contain, i + |Contain| - 1 + j)
  {
    var tail := " " + line[i + |Contain|..|line| - 1];
    assert line[i + |Contain| - 1] == line[i..i + |Contain|][|Contain| - 1] == ' ';
    forall j | OccursAt(tail, Contain, j)
      ensures i < i + |Contain| - 1 + j <= |line| - 1 - |Contain| && OccursAt(line, Contain, i + |Contain| - 1 + j)
    {
      var at := i + |Contain| - 1 + j;
      forall k | 0 <= k < |Contain|
        ensures line[at + k] == Contain[k]
      {
        assert tail[j..j + |Contain|][k] == tail[j + k] == line[at + k];
      }
      assert line[at..at + |Contain|] == Contain;
    }
  }

  /** The phrase overlaps itself only at its last character, so two
      occurrences are either 13 or more characters apart or the same. */
  lemma OccurrencesApart(s: string, i: int, j: int)
    requires OccursAt(s, Contain, i) && OccursAt(s, Contain, j) && i < j
    ensures j >= i + |Contain| - 1
  {
    assert s[j] == ' ' && s[j + 1] == 'b' by {
      assert s[j..j + |Contain|] == Contain;
    }
    assert forall k :: 0 <= k < |Contain| ==> s[i + k] == Contain[k] by {
      assert s[i..i + |Contain|] == Contain;
    }
    assert forall d :: 0 < d < |Contain| - 1 ==> Contain[d] != ' ' || Contain[d + 1] != 'b';
  }

  /** A later occurrence than the one after `colour` lies in `" " + body`. */
  lemma LaterOccurrence(line: string, colour: string, body: string, j: int)
    requires RuleShape(line, colour, body) && OccursAt(line, Contain, j) && j > |colour|
    ensures Contains(" " + body, Contain)
  {
    assert OccursAt(line, Contain, |colour|) by {
      assert line[|colour|..|colour| + |Contain|] == Contain;
    }
    OccurrencesApart(line, |colour|, j);
    var tail := " " + body;
    var start := |colour| + |Contain| - 1;
    assert tail == line[start..|line| - 1];
    assert j + |Contain| <= |line| - 1 by {
      assert line[|line| - 1] == '.';
      assert line[j + |Contain| - 1] == line[j..j + |Contain|][|Contain| - 1] == ' ';
    }
    assert tail[j - start..j - start + |Contain|] == line[j..j + |Contain|];
    assert OccursAt(tail, Contain, j - start);
  }

  /** The captures are the only split whose body, after the phrase's last
      space, does not restart the phrase. */
  lemma MatchOuterUnique(line: string, colour: string, body: string)
    requires RuleShape(line, colour, body) && !Contains(" " + body, Contain)
    ensures MatchOuter(line) == Some((colour, body))
  {
    var r := MatchOuter(line);
    var c := r.value.0;
    var b := r.value.1;
    assert OccursAt(line, Contain, |colour|) by {
      assert line[|colour|..|colour| + |Contain|] == Contain;
    }
    assert OccursAt(line, Contain, |c|) by {
      assert line[|c|..|c| + |Contain|] == Contain;
    }
    if |c| < |colour| {
      LaterOccurrence(line, c, b, |colour|);
    } else if |c| > |colour| {
      LaterOccurrence(line, colour, body, |c|);
    }
    assert c == line[..|colour|] == colour;
    assert b == line[|colour| + |Contain|..|line| - 1] == body;
  }

  // ---------------------------------------------------------------------------
  // The inner pattern `^([0-9]+) (.*) bags?$`, applied to each item of the
  // body split at ", ".

  /** Length of the run of digits `s` starts with. */
  function LeadingDigits(s: string): (n: nat)
    ensures n <= |s| && AllDigits(s[..n]) && (n < |s| ==> !IsDigit(s[n]))
  {
    if |s| == 0 || !IsDigit(s[0]) then 0
    else
      var n := 1 + LeadingDigits(s[1..]);
      assert s[..n] == [s[0]] + s[1..][..n - 1];
      n
  }

  /** The digit run of `digits + rest` is `digits` when `rest` starts with
      something other than a digit. */
  lemma {:induction false} LeadingDigitsOf(digits: string, rest: string)
    requires AllDigits(digits) && |rest| > 0 && !IsDigit(rest[0])
    ensures LeadingDigits(digits + rest) == |digits|
  {
    if |digits| > 0 {
      assert (digits + rest)[1..] == digits[1..] + rest;
      LeadingDigitsOf(digits[1..], rest);
    } else {
      assert digits + rest == rest;
    }
  }

  /** `inner_group[1].parse().unwrap_or_default()`: the `i32` value of the
      digits, or 0 when it does not fit. */
  function CountOf(digits: string): (n: int)
    requires AllDigits(digits) && |digits| > 0
    ensures 0 <= n <= I32Max
    ensures DigitsValue(digits) <= I32Max ==> n == DigitsValue(digits)
    ensures DigitsValue(digits) > I32Max ==> n == 0
  {
    assert IsDigit(digits[0]);
    match ParseI32(digits)
    case Some(v) => v
    case None => 0
  }

  /** One item of the body as the inner pattern reads it: a digit run, a
      space, the colour, then " bag" or " bags" at the very end. */
  function MatchInner(item: string): (r: Option<Contents>)
    ensures r.Some? ==> 0 <= r.value.count <= I32Max
  {
    var d := LeadingDigits(item);
    if d == 0 || d == |item| || item[d] != ' ' || !Lacks(item, '\n') then None
    else
      var rest := item[d + 1..];
      var count := CountOf(item[..d]);
      if |rest| >= 5 && rest[|rest| - 5..] == " bags" then Some(Contents(rest[..|rest| - 5], count))
      else if |rest| >= 4 && rest[|rest| - 4..] == " bag" then Some(Contents(rest[..|rest| - 4], count))
      else None
  }

  /** The items that match the inner pattern, in order; the rest (such as
      "no other bags") are dropped. */
  function MatchItems(items: seq<string>): (r: seq<Contents>)
    ensures |r| <= |items|
  {
    if |items| == 0 then []
    else match MatchInner(items[0])
      case Some(c) => [c] + MatchItems(items[1..])
      case None => MatchItems(items[1..])
  }

  /** `parse_rule`. */
  function ParseRule(line: string): (r: Rule)
    ensures forall k :: 0 <= k < |r.inner| ==> 0 <= r.inner[k].count
    ensures (forall colour, body :: !RuleShape(line, colour, body)) ==> r == EmptyRule
    ensures forall colour, body :: RuleShape(line, colour, body) && !Contains(" " + body, Contain) ==>
      r == Rule(colour, MatchItems(Split(body, ", ")))
  {
    assert forall colour, body :: RuleShape(line, colour, body) && !Contains(" " + body, Contain) ==>
      MatchOuter(line) == Some((colour, body)) by {
      forall colour, body | RuleShape(line, colour, body) && !Contains(" " + body, Contain)
        ensures MatchOuter(line) == Some((colour, body))
      {
        MatchOuterUnique(line, colour, body);
      }
    }
    match MatchOuter(line)
    case None => EmptyRule
    case Some((colour, body)) =>
      var inner := MatchItems(Split(body, ", "));
      assert forall k :: 0 <= k < |inner| ==> 0 <= inner[k].count by {
        MatchItemsCounts(Split(body, ", "));
      }
      Rule(colour, inner)
  }

  lemma {:induction false} MatchItemsCounts(items: seq<string>)
    ensures forall k :: 0 <= k < |MatchItems(items)| ==> 0 <= MatchItems(items)[k].count
  {
    if |items| > 0 {
      MatchItemsCounts(items[1..]);
    }
  }

  // ---------------------------------------------------------------------------
  // The rule notation the parser inverts.

  /** A colour the notation can carry: no line break, no comma, and not the
      word "contain" (which would let " bags contain " appear inside a list). */
  predicate PlainColour(colour: string)
  {
    Lacks(colour, '\n') && Lacks(colour, ',') && FindFrom(colour, "contain", 0).None?
  }

  predicate Writable(rule: Rule)
  {
    && Lacks(rule.colour, '\n')
    && forall k :: 0 <= k < |rule.inner| ==>
         PlainColour(rule.inner[k].colour) && 0 <= rule.inner[k].count <= I32Max
  }

  function Noun(count: int): string
  {
    if count == 1 then " bag" else " bags"
  }

  /** "2 muted yellow bags". */
  function FormatContents(c: Contents): string
    requires 0 <= c.count
  {
    ShowNat(c.count) + " " + c.colour + Noun(c.count)
  }

  function FormatItems(inner: seq<Contents>): (items: seq<string>)
    requires forall k :: 0 <= k < |inner| ==> 0 <= inner[k].count
    ensures |items| == |inner|
    ensures forall k :: 0 <= k < |inner| ==> items[k] == FormatContents(inner[k])
  {
    if |inner| == 0 then [] else [FormatContents(inner[0])] + FormatItems(inner[1..])
  }

  /** "light red bags contain 1 bright white bag, 2 muted yellow bags." and
      "faded blue bags contain no other bags.". */
  function FormatRule(rule: Rule): string
    requires forall k :: 0 <= k < |rule.inner| ==> 0 <= rule.inner[k].count
  {
    rule.colour + Contain + FormatBody(rule.inner) + "."
  }

  function FormatBody(inner: seq<Contents>): string
    requires forall k :: 0 <= k < |inner| ==> 0 <= inner[k].count
  {
    if |inner| == 0 then "no other bags" else Join(FormatItems(inner), ", ")
  }


  /** The inner pattern on `<digits> <colour> bag` or `... bags`: the count
      is the digits' value (0 past `i32`), the colour everything between. */
  lemma MatchInnerOf(digits: string, colour: string, plural: bool)
    requires AllDigits(digits) && |digits| > 0 && Lacks(colour, '\n')
    ensures MatchInner(digits + " " + colour + (if plural then " bags" else " bag"))
      == Some(Contents(colour, CountOf(digits)))
  {
    if plural {
      MatchInnerNoun(digits, colour, " bags");
    } else {
      MatchInnerNoun(digits, colour, " bag");
    }
  }

  /** `item` is `<digits> <colour> bag` or `<digits> <colour> bags`, the
      shape the inner pattern accepts. */
  predicate InnerShape(item: string, digits: string, colour: string, plural: bool)
  {
    && AllDigits(digits) && |digits| > 0 && Lacks(colour, '\n')
    && item == digits + " " + colour + (if plural then " bags" else " bag")
  }

  /** Both directions of the inner pattern: an item matches exactly when it
      has the shape, and then the captures are its digits and its colour.
      Every other item, such as "no other bags", gives `None` and is dropped. */
  lemma MatchInnerShape(item: string)
    ensures MatchInner(item).Some? <==> exists digits, colour, plural :: InnerShape(item, digits, colour, plural)
    ensures forall digits, colour, plural :: InnerShape(item, digits, colour, plural) ==>
      MatchInner(item) == Some(Contents(colour, CountOf(digits)))
  {
    forall digits, colour, plural | InnerShape(item, digits, colour, plural)
      ensures MatchInner(item) == Some(Contents(colour, CountOf(digits)))
    {
      MatchInnerOf(digits, colour, plural);
    }
    if MatchInner(item).Some? {
      var digits, colour, plural := MatchHasShape(item);
      assert InnerShape(item, digits, colour, plural);
    }
  }

  /** A matched item has the shape: its leading digits, the colour before
      the noun, and the noun's plural. */
  lemma MatchHasShape(item: string) returns (digits: string, colour: string, plural: bool)
    requires MatchInner(item).Some?
    ensures InnerShape(item, digits, colour, plural)
  {
    var d := LeadingDigits(item);
    var rest := item[d + 1..];
    assert item == item[..d] + " " + rest;
    assert Lacks(rest, '\n') by {
      forall k | 0 <= k < |rest|
        ensures rest[k] != '\n'
      {
        assert rest[k] == item[d + 1 + k];
      }
    }
    digits := item[..d];
    colour, plural := NounOf(rest);
  }

  /** The colour and noun of the part after the count. */
  lemma NounOf(rest: string) returns (colour: string, plural: bool)
    requires (|rest| >= 5 && rest[|rest| - 5..] == " bags") || (|rest| >= 4 && rest[|rest| - 4..] == " bag")
    requires Lacks(rest, '\n')
    ensures rest == colour + (if plural then " bags" else " bag") && Lacks(colour, '\n')
  {
    plural := |rest| >= 5 && rest[|rest| - 5..] == " bags";
    colour := if plural then rest[..|rest| - 5] else rest[..|rest| - 4];
    assert rest == colour + rest[|colour|..];
  }

  lemma MatchInnerNoun(digits: string, colour: string, noun: string)
    requires AllDigits(digits) && |digits| > 0 && Lacks(colour, '\n')
    requires noun == " bags" || noun == " bag"
    ensures MatchInner(digits + " " + colour + noun) == Some(Contents(colour, CountOf(digits)))
  {
    var rest := colour + noun;
    NounSuffix(colour, noun);
    ItemParts(digits, colour, noun);
    MatchInnerRest(digits + " " + colour + noun, digits, rest, colour);
  }

  lemma ItemParts(digits: string, colour: string, noun: string)
    ensures digits + " " + colour + noun == digits + (" " + (colour + noun))
  {
  }

  /** An item whose count is followed by a colour and " bag" or " bags". */
  lemma MatchInnerRest(item: string, digits: string, rest: string, colour: string)
    requires item == digits + (" " + rest)
    requires AllDigits(digits) && |digits| > 0 && Lacks(rest, '\n')
    requires
      || (|rest| >= 5 && rest[|rest| - 5..] == " bags" && rest[..|rest| - 5] == colour)
      || (!(|rest| >= 5 && rest[|rest| - 5..] == " bags") && |rest| >= 4 && rest[|rest| - 4..] == " bag" && rest[..|rest| - 4] == colour)
    ensures MatchInner(item) == Some(Contents(colour, CountOf(digits)))
  {
    InnerHead(digits, rest);
  }

  /** The count and the space in front of the rest of an item. */
  lemma InnerHead(digits: string, rest: string)
    requires AllDigits(digits) && |digits| > 0 && Lacks(rest, '\n')
    ensures var item, d := digits + (" " + rest), |digits|;
      && LeadingDigits(item) == d && d < |item| && item[d] == ' '
      && item[..d] == digits && item[d + 1..] == rest && Lacks(item, '\n')
  {
    var item, d := digits + (" " + rest), |digits|;
    LeadingDigitsOf(digits, " " + rest);
    assert item[..d] == digits;
    assert item[d + 1..] == rest;
    DigitsLack(digits, '\n');
    LacksConcat(" ", rest, '\n');
    LacksConcat(digits, " " + rest, '\n');
  }

  /** The colour in front of " bag" or " bags" is what the pattern keeps. */
  lemma NounSuffix(colour: string, noun: string)
    requires noun == " bags" || noun == " bag"
    ensures var rest := colour + noun;
      && (Lacks(colour, '\n') ==> Lacks(rest, '\n'))
      && (noun == " bags" ==> |rest| >= 5 && rest[|rest| - 5..] == " bags" && rest[..|rest| - 5] == colour)
      && (noun == " bag" ==> !(|rest| >= 5 && rest[|rest| - 5..] == " bags"))
      && (noun == " bag" ==> |rest| >= 4 && rest[|rest| - 4..] == " bag" && rest[..|rest| - 4] == colour)
  {
    var rest := colour + noun;
    if Lacks(colour, '\n') {
      LacksConcat(colour, noun, '\n');
    }
    if noun == " bags" {
      assert rest[|rest| - 5..] == " bags";
      assert rest[..|rest| - 5] == colour;
    } else {
      assert rest[|rest| - 1] == 'g';
      assert rest[|rest| - 4..] == " bag";
      assert rest[..|rest| - 4] == colour;
    }
  }

  /** The inner pattern reads a formatted item back. */
  lemma MatchFormatContents(c: Contents)
    requires PlainColour(c.colour) && 0 <= c.count <= I32Max
    ensures MatchInner(FormatContents(c)) == Some(c)
  {
    MatchInnerOf(ShowNat(c.count), c.colour, c.count != 1);
  }

  /** Without the word "contain" in any colour, a formatted list never spells
      out " bags contain ". */
  lemma FormattedBodyClean(inner: seq<Contents>)
    requires forall k :: 0 <= k < |inner| ==> PlainColour(inner[k].colour) && 0 <= inner[k].count
    ensures !Contains(" " + FormatBody(inner), Contain)
  {
    if |inner| == 0 {
      EmptyBodyClean();
    } else {
      ListBodyClean(inner);
    }
  }

  lemma EmptyBodyClean()
    ensures !Contains(" " + FormatBody([]), Contain)
  {
    var tail := " " + FormatBody([]);
    assert tail == " no other bags";
    assert tail[1] != Contain[1];
    assert FindFrom(tail, Contain, 0) == None;
  }

  lemma ListBodyClean(inner: seq<Contents>)
    requires |inner| > 0
    requires forall k :: 0 <= k < |inner| ==> PlainColour(inner[k].colour) && 0 <= inner[k].count
    ensures !Contains(" " + FormatBody(inner), Contain)
  {
    ItemsLackWord(inner);
    SpacedClean(FormatBody(inner));
  }

  /** A space in front of text without "contain" does not spell out the
      phrase. */
  lemma SpacedClean(b: string)
    requires !Contains(b, "contain")
    ensures !Contains(" " + b, Contain)
  {
    assert " " + b == "" + " " + b;
    assert !Contains("", "contain");
    WordNotAcross("", " ", b);
    PhraseNeedsWord(" " + b);
  }

  lemma PhraseNeedsWord(s: string)
    ensures Contains(s, Contain) ==> Contains(s, "contain")
  {
    if Contains(s, Contain) {
      var j :| OccursAt(s, Contain, j);
      var w := s[j..j + |Contain|];
      assert w == Contain;
      assert w[6..13] == "contain";
      assert s[j + 6..j + 13] == w[6..13];
      assert OccursAt(s, "contain", j + 6);
    }
  }

  lemma {:induction false} ItemsLackWord(inner: seq<Contents>)
    requires |inner| > 0
    requires forall k :: 0 <= k < |inner| ==> PlainColour(inner[k].colour) && 0 <= inner[k].count
    ensures !Contains(Join(FormatItems(inner), ", "), "contain")
    decreases |inner|
  {
    var items := FormatItems(inner);
    ItemLacksWord(inner[0]);
    if |inner| > 1 {
      var tail := Join(items[1..], ", ");
      assert !Contains(tail, "contain") by {
        ItemsLackWord(inner[1..]);
        assert items[1..] == FormatItems(inner[1..]);
      }
      assert Join(items, ", ") == items[0] + ", " + tail;
      WordNotAcross(items[0], ", ", tail);
    }
  }

  /** "contain" cannot straddle a separator. */
  lemma WordNotAcross(a: string, mid: string, b: string)
    requires mid == ", " || mid == " "
    requires !Contains(a, "contain") && !Contains(b, "contain")
    ensures !Contains(a + mid + b, "contain")
  {
    assert forall k :: 0 <= k < |mid| ==> Lacks("contain", mid[k]);
    if Contains(a + mid + b, "contain") {
      ContainsAcross(a, mid, b, "contain");
    }
  }

  lemma ItemLacksWord(c: Contents)
    requires PlainColour(c.colour) && 0 <= c.count
    ensures !Contains(FormatContents(c), "contain")
  {
    var digits := ShowNat(c.count);
    var noun := Noun(c.count);
    assert !Contains(c.colour, "contain");
    assert !Contains(digits, "contain") by {
      DigitsLack(digits, 'c');
      LacksFirst(digits, "contain");
    }
    assert !Contains(noun[1..], "contain");
    assert FormatContents(c) == digits + " " + (c.colour + " " + noun[1..]);
    WordNotAcross(c.colour, " ", noun[1..]);
    WordNotAcross(digits, " ", c.colour + " " + noun[1..]);
  }

  /** Splitting the formatted list at ", " gives the formatted items back. */
  lemma SplitFormattedItems(inner: seq<Contents>)
    requires |inner| > 0
    requires forall k :: 0 <= k < |inner| ==> PlainColour(inner[k].colour) && 0 <= inner[k].count
    ensures Split(Join(FormatItems(inner), ", "), ", ") == FormatItems(inner)
  {
    var items := FormatItems(inner);
    forall k | 0 <= k < |items|
      ensures EndsBeforeSeparator(items[k], ", ") && !Contains(items[k], ", ")
    {
      ItemClean(inner[k]);
    }
    SplitJoin(items, ", ");
  }

  lemma ItemClean(c: Contents)
    requires PlainColour(c.colour) && 0 <= c.count
    ensures EndsBeforeSeparator(FormatContents(c), ", ") && !Contains(FormatContents(c), ", ")
  {
    var item := FormatContents(c);
    var digits := ShowNat(c.count);
    DigitsLack(digits, ',');
    LacksConcat(digits, " ", ',');
    LacksConcat(digits + " ", c.colour, ',');
    LacksConcat(digits + " " + c.colour, Noun(c.count), ',');
    LacksFirst(item, ", ");
    forall j | 0 <= j < |item|
      ensures !OccursAt(item + ", ", ", ", j)
    {
      assert (item + ", ")[j] == item[j];
    }
  }

  /** The body of a rule without contents is one item, which is not a
      count of bags. */
  lemma NoOtherBags(s: string)
    requires s == "no other bags"
    ensures Split(s, ", ") == [s]
    ensures MatchInner(s) == None
  {
    assert Lacks(s, ',');
    LacksFirst(s, ", ");
    assert LeadingDigits(s) == 0 by {
      assert !IsDigit(s[0]);
    }
  }

  /** Parsing inverts the notation for every rule it can write. */
  lemma ParseFormatRule(rule: Rule)
    requires Writable(rule)
    ensures ParseRule(FormatRule(rule)) == rule
  {
    var body := FormatBody(rule.inner);
    var line := FormatRule(rule);
    assert MatchOuter(line) == Some((rule.colour, body)) by {
      FormattedBodyClean(rule.inner);
      BodyLacksNewline(rule.inner);
      LacksConcat(rule.colour, Contain, '\n');
      LacksConcat(rule.colour + Contain, body, '\n');
      LacksConcat(rule.colour + Contain + body, ".", '\n');
      MatchOuterUnique(line, rule.colour, body);
    }
    ParseFormatBody(rule.inner);
  }

  /** The formatted body reads back as the contents. */
  lemma ParseFormatBody(inner: seq<Contents>)
    requires forall k :: 0 <= k < |inner| ==> PlainColour(inner[k].colour) && 0 <= inner[k].count <= I32Max
    ensures MatchItems(Split(FormatBody(inner), ", ")) == inner
  {
    if |inner| == 0 {
      NoOtherBags("no other bags");
    } else {
      SplitFormattedItems(inner);
      MatchFormattedItems(inner);
    }
  }

  lemma {:induction false} MatchFormattedItems(inner: seq<Contents>)
    requires forall k :: 0 <= k < |inner| ==> PlainColour(inner[k].colour) && 0 <= inner[k].count <= I32Max
    ensures MatchItems(FormatItems(inner)) == inner
  {
    if |inner| > 0 {
      MatchFormatContents(inner[0]);
      assert FormatItems(inner)[1..] == FormatItems(inner[1..]);
      MatchFormattedItems(inner[1..]);
    }
  }

  lemma BodyLacksNewline(inner: seq<Contents>)
    requires forall k :: 0 <= k < |inner| ==> PlainColour(inner[k].colour) && 0 <= inner[k].count
    ensures Lacks(FormatBody(inner), '\n')
  {
    if |inner| > 0 {
      var items := FormatItems(inner);
      forall k | 0 <= k < |items|
        ensures Lacks(items[k], '\n')
      {
        ItemLacksNewline(inner[k]);
      }
      JoinLacks(items, ", ", '\n');
    }
  }

  lemma ItemLacksNewline(c: Contents)
    requires PlainColour(c.colour) && 0 <= c.count
    ensures Lacks(FormatContents(c), '\n')
  {
    var digits := ShowNat(c.count);
    DigitsLack(digits, '\n');
    LacksConcat(digits, " ", '\n');
    LacksConcat(digits + " ", c.colour, '\n');
    LacksConcat(digits + " " + c.colour, Noun(c.count), '\n');
  }

  lemma {:induction false} JoinLacks(parts: seq<string>, sep: string, c: char)
    requires Lacks(sep, c) && forall k :: 0 <= k < |parts| ==> Lacks(parts[k], c)
    ensures Lacks(Join(parts, sep), c)
  {
    if |parts| > 1 {
      JoinLacks(parts[1..], sep, c);
      var s := Join(parts, sep);
      var tail := Join(parts[1..], sep);
      assert s == parts[0] + sep + tail;
      forall k | 0 <= k < |s|
        ensures s[k] != c
      {
        if k < |parts[0]| {
          assert s[k] == parts[0][k];
        } else if k < |parts[0]| + |sep| {
          assert s[k] == sep[k - |parts[0]|];
        } else {
          assert s[k] == tail[k - |parts[0]| - |sep|];
        }
      }
    }
  }

  // ---------------------------------------------------------------------------
  // `parse_rules`: one rule per line longer than one byte.

  function ParseRules(lines: seq<string>): (rules: seq<Rule>)
    ensures |rules| <= |lines|
  {
    if |lines| == 0 then []
    else (if Utf8Length(lines[0]) > 1 then [ParseRule(lines[0])] else []) + ParseRules(lines[1..])
  }

  /** Lines are handled one at a time: the rules of a concatenation are the
      concatenated rules. */
  lemma {:induction false} ParseRulesAppend(a: seq<string>, b: seq<string>)
    ensures ParseRules(a + b) == ParseRules(a) + ParseRules(b)
  {
    if |a| == 0 {
      assert a + b == b;
    } else {
      var head := if Utf8Length(a[0]) > 1 then [ParseRule(a[0])] else [];
      assert (a + b)[0] == a[0] && (a + b)[1..] == a[1..] + b;
      assert ParseRules(a + b) == head + ParseRules(a[1..] + b);
      ParseRulesAppend(a[1..], b);
      assert head + (ParseRules(a[1..]) + ParseRules(b)) == head + ParseRules(a[1..]) + ParseRules(b);
    }
  }

  /** A single line gives its rule when it is longer than one byte, and
      nothing otherwise (the empty line after the last newline, say). */
  lemma ParseRulesSingle(line: string)
    ensures ParseRules([line]) == if Utf8Length(line) > 1 then [ParseRule(line)] else []
  {
    assert [line][1..] == [];
  }

  /** On ASCII text "longer than one byte" is "longer than one character". */
  lemma ParseRulesAscii(line: string)
    requires IsAscii(line)
    ensures ParseRules([line]) == if |line| > 1 then [ParseRule(line)] else []
  {
    AsciiBytes(line);
    ParseRulesSingle(line);
  }

  // ---------------------------------------------------------------------------
  // The containment graph. Both queries walk the rules in order and, inside a
  // rule, its contents in order; an `Edge` is one such (rule, contents) pair.

  datatype Edge = Edge(outer: string, inner: Contents)

  function RuleEdges(colour: string, inner: seq<Contents>): (es: seq<Edge>)
    ensures |es| == |inner|
    ensures forall k :: 0 <= k < |es| ==> es[k] == Edge(colour, inner[k])
  {
    if |inner| == 0 then [] else [Edge(colour, inner[0])] + RuleEdges(colour, inner[1..])
  }

  /** Every (rule, contents) pair, in the order the nested loops visit them. */
  function Containments(rules: seq<Rule>): (es: seq<Edge>)
  {
    if |rules| == 0 then [] else RuleEdges(rules[0].colour, rules[0].inner) + Containments(rules[1..])
  }

  /** The pairs are exactly the (rule colour, contents) combinations. */
  lemma {:induction false} ContainmentsPairs(rules: seq<Rule>)
    ensures forall e :: e in Containments(rules) <==>
      exists k :: 0 <= k < |rules| && e.outer == rules[k].colour && e.inner in rules[k].inner
  {
    if |rules| > 0 {
      var rest := Containments(rules[1..]);
      ContainmentsPairs(rules[1..]);
      forall e | e in rest
        ensures exists k :: 1 <= k < |rules| && e.outer == rules[k].colour && e.inner in rules[k].inner
      {
        var k :| 0 <= k < |rules[1..]| && e.outer == rules[1..][k].colour && e.inner in rules[1..][k].inner;
        assert rules[1..][k] == rules[k + 1];
      }
      forall e: Edge | exists k :: 1 <= k < |rules| && e.outer == rules[k].colour && e.inner in rules[k].inner
        ensures e in rest
      {
        var k :| 1 <= k < |rules| && e.outer == rules[k].colour && e.inner in rules[k].inner;
        assert rules[1..][k - 1] == rules[k];
      }
      forall e: Edge | e.outer == rules[0].colour && e.inner in rules[0].inner
        ensures e in RuleEdges(rules[0].colour, rules[0].inner)
      {
        var k :| 0 <= k < |rules[0].inner| && rules[0].inner[k] == e.inner;
        assert RuleEdges(rules[0].colour, rules[0].inner)[k] == e;
      }
    }
  }

  /** Some rule says a bag of colour `outer` holds bags of colour `inner`. */
  ghost predicate Holds(edges: seq<Edge>, outer: string, inner: string)
  {
    exists e :: e in edges && e.outer == outer && e.inner.colour == inner
  }

  /** `p[k + 1]` holds `p[k]` for every k: a chain of containers leading
      outwards from `p[0]`. */
  ghost predicate Chain(edges: seq<Edge>, p: seq<string>)
  {
    |p| >= 1 && forall k :: 0 <= k < |p| - 1 ==> Holds(edges, p[k + 1], p[k])
  }

  /** A bag of colour `a` can end up holding, directly or not, a bag of
      colour `c`. */
  ghost predicate Ancestor(edges: seq<Edge>, c: string, a: string)
  {
    exists p :: Chain(edges, p) && |p| >= 2 && p[0] == c && p[|p| - 1] == a
  }

  ghost function Ancestors(edges: seq<Edge>, c: string): set<string>
  {
    set e | e in edges && Ancestor(edges, c, e.outer) :: e.outer
  }

  /** Every chain of containers out of `c` has at most `n` colours. */
  ghost predicate ChainsWithin(edges: seq<Edge>, c: string, n: nat)
  {
    forall p :: Chain(edges, p) && p[0] == c ==> |p| <= n
  }

  /** No colour can end up inside itself. */
  ghost predicate Acyclic(edges: seq<Edge>)
  {
    forall p :: Chain(edges, p) && |p| >= 2 ==> p[0] != p[|p| - 1]
  }

  lemma ChainCons(edges: seq<Edge>, c: string, p: seq<string>)
    requires Chain(edges, p) && Holds(edges, p[0], c)
    ensures Chain(edges, [c] + p)
  {
    var q := [c] + p;
    forall k | 0 <= k < |q| - 1
      ensures Holds(edges, q[k + 1], q[k])
    {
      if k > 0 {
        assert q[k + 1] == p[k] && q[k] == p[k - 1];
      }
    }
  }

  lemma ChainTail(edges: seq<Edge>, p: seq<string>)
    requires Chain(edges, p) && |p| >= 2
    ensures Chain(edges, p[1..]) && Holds(edges, p[1], p[0])
  {
    forall k | 0 <= k < |p[1..]| - 1
      ensures Holds(edges, p[1..][k + 1], p[1..][k])
    {
      assert p[1..][k + 1] == p[k + 2] && p[1..][k] == p[k + 1];
    }
  }

  // ---------------------------------------------------------------------------
  // `search_for_bag`. The source recurses without a cycle check; `fuel`
  // bounds the depth, and None stands for a search that would not end.

  function Search(edges: seq<Edge>, colour: string, fuel: nat): Option<seq<string>>
    decreases fuel, |edges| + 1
  {
    if fuel == 0 then None else Scan(edges, edges, colour, fuel)
  }

  /** The loop over the (rule, contents) pairs in `rest`: each pair whose
      contents have the searched colour contributes the rule's colour
      followed by that colour's own containers. */
  function Scan(edges: seq<Edge>, rest: seq<Edge>, colour: string, fuel: nat): Option<seq<string>>
    requires fuel > 0
    decreases fuel, |rest|
  {
    if |rest| == 0 then Some([])
    else if rest[0].inner.colour == colour then
      match Search(edges, rest[0].outer, fuel - 1)
      case None => None
      case Some(up) =>
        match Scan(edges, rest[1..], colour, fuel)
        case None => None
        case Some(more) => Some([rest[0].outer] + up + more)
    else Scan(edges, rest[1..], colour, fuel)
  }

  function SearchForBag(rules: seq<Rule>, colour: string, fuel: nat): Option<seq<string>>
  {
    Search(Containments(rules), colour, fuel)
  }

  /** Soundness: every colour found can end up holding the searched one. */
  lemma SearchSound(edges: seq<Edge>, colour: string, fuel: nat)
    ensures Search(edges, colour, fuel).Some? ==>
      forall x :: x in Search(edges, colour, fuel).value ==> Ancestor(edges, colour, x)
    decreases fuel, |edges| + 1
  {
    if fuel > 0 {
      ScanSound(edges, edges, colour, fuel);
    }
  }

  lemma ScanSound(edges: seq<Edge>, rest: seq<Edge>, colour: string, fuel: nat)
    requires fuel > 0 && forall e :: e in rest ==> e in edges
    ensures Scan(edges, rest, colour, fuel).Some? ==>
      forall x :: x in Scan(edges, rest, colour, fuel).value ==> Ancestor(edges, colour, x)
    decreases fuel, |rest|
  {
    if |rest| > 0 {
      ScanSound(edges, rest[1..], colour, fuel);
      var o := rest[0].outer;
      if rest[0].inner.colour == colour && Scan(edges, rest, colour, fuel).Some? {
        SearchSound(edges, o, fuel - 1);
        var up := Search(edges, o, fuel - 1).value;
        assert Holds(edges, o, colour);
        assert Chain(edges, [colour, o]);
        forall x | x in up
          ensures Ancestor(edges, colour, x)
        {
          var p :| Chain(edges, p) && |p| >= 2 && p[0] == o && p[|p| - 1] == x;
          ChainCons(edges, colour, p);
          assert ([colour] + p)[|p|] == x;
        }
      }
    }
  }

  /** A pair in `rest` whose contents have the searched colour puts its
      rule's colour, and everything the search finds for it, in the result. */
  lemma {:induction false} ScanCovers(edges: seq<Edge>, rest: seq<Edge>, colour: string, fuel: nat, e: Edge)
    requires fuel > 0 && Scan(edges, rest, colour, fuel).Some?
    requires e in rest && e.inner.colour == colour
    ensures Search(edges, e.outer, fuel - 1).Some?
    ensures e.outer in Scan(edges, rest, colour, fuel).value
    ensures forall x :: x in Search(edges, e.outer, fuel - 1).value ==> x in Scan(edges, rest, colour, fuel).value
    decreases |rest|
  {
    if rest[0] != e {
      ScanCovers(edges, rest[1..], colour, fuel, e);
    }
  }

  /** Completeness: every colour that can end up holding the searched one is
      found. */
  lemma {:induction false} SearchComplete(edges: seq<Edge>, colour: string, fuel: nat, p: seq<string>)
    requires Search(edges, colour, fuel).Some?
    requires Chain(edges, p) && |p| >= 2 && p[0] == colour
    ensures p[|p| - 1] in Search(edges, colour, fuel).value
    decreases |p|
  {
    ChainTail(edges, p);
    var e :| e in edges && e.outer == p[1] && e.inner.colour == colour;
    ScanCovers(edges, edges, colour, fuel, e);
    if |p| > 2 {
      SearchComplete(edges, p[1], fuel - 1, p[1..]);
    }
  }

  /** The search finds exactly the colours that can end up holding the
      searched one. */
  lemma SearchFindsAncestors(edges: seq<Edge>, colour: string, fuel: nat)
    requires Search(edges, colour, fuel).Some?
    ensures (set x | x in Search(edges, colour, fuel).value) == Ancestors(edges, colour)
  {
    var r := Search(edges, colour, fuel).value;
    SearchSound(edges, colour, fuel);
    forall x | x in r
      ensures x in Ancestors(edges, colour)
    {
      var p :| Chain(edges, p) && |p| >= 2 && p[0] == colour && p[|p| - 1] == x;
      assert Holds(edges, p[|p| - 1], p[|p| - 2]);
    }
    forall x | x in Ancestors(edges, colour)
      ensures x in r
    {
      var p :| Chain(edges, p) && |p| >= 2 && p[0] == colour && p[|p| - 1] == x;
      SearchComplete(edges, colour, fuel, p);
    }
  }

  /** The search ends exactly when every chain of containers out of the
      colour is shorter than the fuel allows. */
  lemma SearchDefined(edges: seq<Edge>, colour: string, fuel: nat)
    ensures Search(edges, colour, fuel).Some? <==> ChainsWithin(edges, colour, fuel)
  {
    if Search(edges, colour, fuel).Some? {
      forall p | Chain(edges, p) && p[0] == colour
        ensures |p| <= fuel
      {
        SomeBoundsChains(edges, colour, fuel, p);
      }
    } else if ChainsWithin(edges, colour, fuel) {
      ChainsBoundSome(edges, colour, fuel);
    }
  }

  lemma {:induction false} SomeBoundsChains(edges: seq<Edge>, colour: string, fuel: nat, p: seq<string>)
    requires Search(edges, colour, fuel).Some?
    requires Chain(edges, p) && p[0] == colour
    ensures |p| <= fuel
    decreases |p|
  {
    if |p| >= 2 {
      ChainTail(edges, p);
      var e :| e in edges && e.outer == p[1] && e.inner.colour == colour;
      ScanCovers(edges, edges, colour, fuel, e);
      SomeBoundsChains(edges, p[1], fuel - 1, p[1..]);
    }
  }

  lemma ChainsBoundSome(edges: seq<Edge>, colour: string, fuel: nat)
    requires ChainsWithin(edges, colour, fuel)
    ensures Search(edges, colour, fuel).Some?
    decreases fuel, |edges| + 1
  {
    assert Chain(edges, [colour]);
    ScanSome(edges, edges, colour, fuel);
  }

  lemma ScanSome(edges: seq<Edge>, rest: seq<Edge>, colour: string, fuel: nat)
    requires fuel > 0 && ChainsWithin(edges, colour, fuel)
    requires forall e :: e in rest ==> e in edges
    ensures Scan(edges, rest, colour, fuel).Some?
    decreases fuel, |rest|
  {
    if |rest| > 0 {
      var o := rest[0].outer;
      if rest[0].inner.colour == colour {
        forall q | Chain(edges, q) && q[0] == o
          ensures |q| <= fuel - 1
        {
          assert Holds(edges, o, colour);
          ChainCons(edges, colour, q);
        }
        ChainsBoundSome(edges, o, fuel - 1);
      }
      ScanSome(edges, rest[1..], colour, fuel);
    }
  }

  /** More fuel never changes a search that already ended. */
  lemma SearchFuel(edges: seq<Edge>, colour: string, fuel: nat, more: nat)
    requires Search(edges, colour, fuel).Some? && fuel <= more
    ensures Search(edges, colour, more) == Search(edges, colour, fuel)
    decreases fuel, |edges| + 1
  {
    ScanFuel(edges, edges, colour, fuel, more);
  }

  lemma ScanFuel(edges: seq<Edge>, rest: seq<Edge>, colour: string, fuel: nat, more: nat)
    requires 0 < fuel <= more && Scan(edges, rest, colour, fuel).Some?
    ensures Scan(edges, rest, colour, more) == Scan(edges, rest, colour, fuel)
    decreases fuel, |rest|
  {
    if |rest| > 0 {
      if rest[0].inner.colour == colour {
        SearchFuel(edges, rest[0].outer, fuel - 1, more - 1);
      }
      ScanFuel(edges, rest[1..], colour, fuel, more);
    }
  }

  /** Without cycles no chain repeats a colour, so one more colour than
      there are pairs always suffices: the search of the source ends. */
  lemma AcyclicSearchEnds(edges: seq<Edge>, colour: string)
    requires Acyclic(edges)
    ensures Search(edges, colour, |edges| + 1).Some?
  {
    forall p | Chain(edges, p) && p[0] == colour
      ensures |p| <= |edges| + 1
    {
      AcyclicChainShort(edges, p);
    }
    SearchDefined(edges, colour, |edges| + 1);
  }

  lemma AcyclicChainShort(edges: seq<Edge>, p: seq<string>)
    requires Acyclic(edges) && Chain(edges, p)
    ensures |p| <= |edges| + 1
  {
    if |p| > |edges| + 1 {
      var loop := LongChainLoops(edges, p);
    }
  }

  /** A chain longer than the number of edges passes some colour twice, and
      the stretch between the two visits leads from that colour to itself. */
  lemma LongChainLoops(edges: seq<Edge>, p: seq<string>) returns (loop: seq<string>)
    requires Chain(edges, p) && |p| > |edges| + 1
    ensures Chain(edges, loop) && |loop| >= 2 && loop[0] == loop[|loop| - 1]
  {
    var tail := p[1..];
    var outers := set e | e in edges :: e.outer;
    OutersBound(edges);
    assert (set x | x in tail) <= outers by {
      forall x | x in tail
        ensures x in outers
      {
        var k :| 0 <= k < |tail| && tail[k] == x;
        assert Holds(edges, p[k + 1], p[k]);
      }
    }
    assert !Distinct(tail) by {
      if Distinct(tail) {
        DistinctCardinality(tail);
        SubsetSize((set x | x in tail), outers);
      }
    }
    var i, j :| 0 <= i < j < |tail| && tail[i] == tail[j];
    loop := p[i + 1..j + 2];
    forall k | 0 <= k < |loop| - 1
      ensures Holds(edges, loop[k + 1], loop[k])
    {
      assert loop[k + 1] == p[i + 1 + k + 1] && loop[k] == p[i + 1 + k];
    }
  }

  lemma {:induction false} OutersBound(edges: seq<Edge>)
    ensures |set e | e in edges :: e.outer| <= |edges|
  {
    if |edges| > 0 {
      OutersBound(edges[1..]);
      assert (set e | e in edges :: e.outer) == {edges[0].outer} + (set e | e in edges[1..] :: e.outer);
    }
  }

  // ---------------------------------------------------------------------------
  // `count_bags`: sort, dedup and count the search result.

  function CountBags(rules: seq<Rule>, colour: string, fuel: nat): (n: Option<nat>)
    ensures n.Some? <==> SearchForBag(rules, colour, fuel).Some?
    ensures n.Some? ==> n.value == |Ancestors(Containments(rules), colour)|
  {
    match SearchForBag(rules, colour, fuel)
    case None => None
    case Some(found) =>
      LexIsTotalOrder();
      SortDedupCount(found, LexLe);
      SearchFindsAncestors(Containments(rules), colour, fuel);
      Some(|Dedup(Sort(found, LexLe))|)
  }

  // ---------------------------------------------------------------------------
  // `count_inner_bags`: for each pair whose rule has the colour, the count of
  // the contents plus that count times what one of them holds.

  function CountInner(edges: seq<Edge>, colour: string, fuel: nat): Option<int>
    decreases fuel, |edges| + 1
  {
    if fuel == 0 then None else SumInner(edges, edges, colour, fuel)
  }

  function SumInner(edges: seq<Edge>, rest: seq<Edge>, colour: string, fuel: nat): Option<int>
    requires fuel > 0
    decreases fuel, |rest|
  {
    if |rest| == 0 then Some(0)
    else if rest[0].outer == colour then
      var n := rest[0].inner.count;
      match CountInner(edges, rest[0].inner.colour, fuel - 1)
      case None => None
      case Some(each) =>
        match SumInner(edges, rest[1..], colour, fuel)
        case None => None
        case Some(more) => Some(n + each * n + more)
    else SumInner(edges, rest[1..], colour, fuel)
  }

  function CountInnerBags(rules: seq<Rule>, colour: string, fuel: nat): Option<int>
  {
    CountInner(Containments(rules), colour, fuel)
  }

  /** A colour no rule gives contents to holds nothing. */
  lemma CountInnerEmpty(edges: seq<Edge>, colour: string, fuel: nat)
    requires fuel > 0 && forall e :: e in edges ==> e.outer != colour
    ensures CountInner(edges, colour, fuel) == Some(0)
  {
    SumInnerEmpty(edges, edges, colour, fuel);
  }

  lemma {:induction false} SumInnerEmpty(edges: seq<Edge>, rest: seq<Edge>, colour: string, fuel: nat)
    requires fuel > 0 && forall e :: e in rest ==> e.outer != colour
    ensures SumInner(edges, rest, colour, fuel) == Some(0)
    decreases |rest|
  {
    if |rest| > 0 {
      SumInnerEmpty(edges, rest[1..], colour, fuel);
    }
  }

  /** `n` copies of `s`, one after another. */
  function Repeat(n: nat, s: seq<string>): (r: seq<string>)
    ensures |r| == n * |s|
  {
    if n == 0 then [] else s + Repeat(n - 1, s)
  }

  predicate Counted(edges: seq<Edge>)
  {
    forall k :: 0 <= k < |edges| ==> edges[k].inner.count >= 0
  }

  /** The bags inside a bag of colour `colour`, one entry per physical bag:
      each pair of the colour's rules contributes its count of copies of the
      inner bag together with everything such a bag holds. */
  function Inside(edges: seq<Edge>, colour: string, fuel: nat): Option<seq<string>>
    requires Counted(edges)
    decreases fuel, |edges| + 1
  {
    if fuel == 0 then None else InsideScan(edges, edges, colour, fuel)
  }

  function InsideScan(edges: seq<Edge>, rest: seq<Edge>, colour: string, fuel: nat): Option<seq<string>>
    requires Counted(edges) && fuel > 0 && forall e :: e in rest ==> e in edges
    decreases fuel, |rest|
  {
    if |rest| == 0 then Some([])
    else
      assert rest[0] in edges;
      var c := rest[0].inner;
      if rest[0].outer == colour then
        match Inside(edges, c.colour, fuel - 1)
        case None => None
        case Some(sub) =>
          match InsideScan(edges, rest[1..], colour, fuel)
          case None => None
          case Some(more) => Some(Repeat(c.count, [c.colour] + sub) + more)
      else InsideScan(edges, rest[1..], colour, fuel)
  }

  /** `count_inner_bags` counts the physical bags inside: it is defined
      exactly when the unfolding is, and then equals its length. */
  lemma CountInnerCountsBags(edges: seq<Edge>, colour: string, fuel: nat)
    requires Counted(edges)
    ensures CountInner(edges, colour, fuel).Some? <==> Inside(edges, colour, fuel).Some?
    ensures CountInner(edges, colour, fuel).Some? ==>
      CountInner(edges, colour, fuel).value == |Inside(edges, colour, fuel).value|
    decreases fuel, |edges| + 1
  {
    if fuel > 0 {
      SumInnerCountsBags(edges, edges, colour, fuel);
    }
  }

  lemma SumInnerCountsBags(edges: seq<Edge>, rest: seq<Edge>, colour: string, fuel: nat)
    requires Counted(edges) && fuel > 0 && forall e :: e in rest ==> e in edges
    ensures SumInner(edges, rest, colour, fuel).Some? <==> InsideScan(edges, rest, colour, fuel).Some?
    ensures SumInner(edges, rest, colour, fuel).Some? ==>
      SumInner(edges, rest, colour, fuel).value == |InsideScan(edges, rest, colour, fuel).value|
    decreases fuel, |rest|
  {
    if |rest| > 0 {
      SumInnerCountsBags(edges, rest[1..], colour, fuel);
      if rest[0].outer == colour {
        assert rest[0] in edges;
        CountInnerCountsBags(edges, rest[0].inner.colour, fuel - 1);
        var c := rest[0].inner;
        if Inside(edges, c.colour, fuel - 1).Some? {
          var sub := Inside(edges, c.colour, fuel - 1).value;
          assert |Repeat(c.count, [c.colour] + sub)| == c.count * (1 + |sub|);
          assert c.count * (1 + |sub|) == c.count + |sub| * c.count;
        }
      }
    }
  }

  /** More fuel never changes a count that already ended. */
  lemma CountInnerFuel(edges: seq<Edge>, colour: string, fuel: nat, more: nat)
    requires CountInner(edges, colour, fuel).Some? && fuel <= more
    ensures CountInner(edges, colour, more) == CountInner(edges, colour, fuel)
    decreases fuel, |edges| + 1
  {
    SumInnerFuel(edges, edges, colour, fuel, more);
  }

  lemma SumInnerFuel(edges: seq<Edge>, rest: seq<Edge>, colour: string, fuel: nat, more: nat)
    requires 0 < fuel <= more && SumInner(edges, rest, colour, fuel).Some?
    ensures SumInner(edges, rest, colour, more) == SumInner(edges, rest, colour, fuel)
    decreases fuel, |rest|
  {
    if |rest| > 0 {
      if rest[0].outer == colour {
        CountInnerFuel(edges, rest[0].inner.colour, fuel - 1, more - 1);
      }
      SumInnerFuel(edges, rest[1..], colour, fuel, more);
    }
  }

  // ---------------------------------------------------------------------------
  // The puzzle's examples.

  const ExampleRules: seq<Rule> := [
    Rule("light red", [Contents("bright white", 1), Contents("muted yellow", 2)]),
    Rule("dark orange", [Contents("bright white", 3), Contents("muted yellow", 4)]),
    Rule("bright white", [Contents("shiny gold", 1)]),
    Rule("muted yellow", [Contents("shiny gold", 2), Contents("faded blue", 9)]),
    Rule("shiny gold", [Contents("dark olive", 1), Contents("vibrant plum", 2)]),
    Rule("dark olive", [Contents("faded blue", 3), Contents("dotted black", 4)]),
    Rule("vibrant plum", [Contents("faded blue", 5), Contents("dotted black", 6)]),
    Rule("faded blue", []),
    Rule("dotted black", [])]

  lemma ContainmentsCons(rule: Rule, rest: seq<Rule>)
    ensures Containments([rule] + rest) == RuleEdges(rule.colour, rule.inner) + Containments(rest)
  {
    assert ([rule] + rest)[1..] == rest;
  }

  /** The pairs of the example rules, in the order the loops visit them. */
  predicate ExampleShape(e: seq<Edge>)
  {
    && |e| == 13
    && e[0] == Edge("light red", Contents("bright white", 1))
    && e[1] == Edge("light red", Contents("muted yellow", 2))
    && e[2] == Edge("dark orange", Contents("bright white", 3))
    && e[3] == Edge("dark orange", Contents("muted yellow", 4))
    && e[4] == Edge("bright white", Contents("shiny gold", 1))
    && e[5] == Edge("muted yellow", Contents("shiny gold", 2))
    && e[6] == Edge("muted yellow", Contents("faded blue", 9))
    && e[7] == Edge("shiny gold", Contents("dark olive", 1))
    && e[8] == Edge("shiny gold", Contents("vibrant plum", 2))
    && e[9] == Edge("dark olive", Contents("faded blue", 3))
    && e[10] == Edge("dark olive", Contents("dotted black", 4))
    && e[11] == Edge("vibrant plum", Contents("faded blue", 5))
    && e[12] == Edge("vibrant plum", Contents("dotted black", 6))
  }

  const ExampleEdges: seq<Edge> := [
    Edge("light red", Contents("bright white", 1)), Edge("light red", Contents("muted yellow", 2)),
    Edge("dark orange", Contents("bright white", 3)), Edge("dark orange", Contents("muted yellow", 4)),
    Edge("bright white", Contents("shiny gold", 1)),
    Edge("muted yellow", Contents("shiny gold", 2)), Edge("muted yellow", Contents("faded blue", 9)),
    Edge("shiny gold", Contents("dark olive", 1)), Edge("shiny gold", Contents("vibrant plum", 2)),
    Edge("dark olive", Contents("faded blue", 3)), Edge("dark olive", Contents("dotted black", 4)),
    Edge("vibrant plum", Contents("faded blue", 5)), Edge("vibrant plum", Contents("dotted black", 6))]

  lemma {:induction false} ContainmentsAppend(a: seq<Rule>, b: seq<Rule>)
    ensures Containments(a + b) == Containments(a) + Containments(b)
  {
    if |a| > 0 {
      assert (a + b)[1..] == a[1..] + b;
      ContainmentsAppend(a[1..], b);
    } else {
      assert a + b == b;
    }
  }

  lemma ContainmentsThree(x: Rule, y: Rule, z: Rule)
    ensures Containments([x, y, z]) == RuleEdges(x.colour, x.inner) + RuleEdges(y.colour, y.inner) + RuleEdges(z.colour, z.inner)
  {
    ContainmentsCons(z, []);
    ContainmentsCons(y, [z]);
    ContainmentsCons(x, [y, z]);
  }

  lemma ExampleEdgesOf(rules: seq<Rule>)
    requires rules == ExampleRules
    ensures Containments(rules) == ExampleEdges
  {
    ContainmentsChunks(rules, 3, 6);
    ExampleChunkA(rules[..3]);
    ExampleChunkB(rules[3..6]);
    ExampleChunkC(rules[6..]);
    SliceSplit(ExampleEdges, 5, 11);
  }

  lemma ContainmentsChunks(rules: seq<Rule>, i: nat, j: nat)
    requires i <= j <= |rules|
    ensures Containments(rules) == Containments(rules[..i]) + Containments(rules[i..j]) + Containments(rules[j..])
  {
    SliceSplit(rules, i, j);
    ContainmentsParts(rules[..i], rules[i..j], rules[j..]);
  }

  lemma ContainmentsParts(front: seq<Rule>, middle: seq<Rule>, back: seq<Rule>)
    ensures Containments(front + middle + back) == Containments(front) + Containments(middle) + Containments(back)
  {
    ContainmentsAppend(front + middle, back);
    ContainmentsAppend(front, middle);
  }

  lemma SliceSplit<T>(s: seq<T>, i: nat, j: nat)
    requires i <= j <= |s|
    ensures s == s[..i] + (s[i..j] + s[j..])
    ensures s == s[..i] + s[i..j] + s[j..]
  {
    assert s[i..] == s[i..j] + s[j..];
    assert s == s[..i] + s[i..];
  }

  lemma ExampleChunkA(a: seq<Rule>)
    requires a == ExampleRules[..3]
    ensures Containments(a) == ExampleEdges[..5]
  {
    ContainmentsThree(a[0], a[1], a[2]);
    assert a == [a[0], a[1], a[2]];
  }

  lemma ExampleChunkB(a: seq<Rule>)
    requires a == ExampleRules[3..6]
    ensures Containments(a) == ExampleEdges[5..11]
  {
    ContainmentsThree(a[0], a[1], a[2]);
    assert a == [a[0], a[1], a[2]];
  }

  lemma ExampleChunkC(a: seq<Rule>)
    requires a == ExampleRules[6..]
    ensures Containments(a) == ExampleEdges[11..]
  {
    ContainmentsThree(a[0], a[1], a[2]);
    assert a == [a[0], a[1], a[2]];
  }

  lemma ExampleShapeOf()
    ensures ExampleShape(ExampleEdges)
  {
  }

  /** One step of the search loop at position `i` of the pairs: a pair that
      does not match is skipped, ... */
  lemma ScanSkip(edges: seq<Edge>, rest: seq<Edge>, colour: string, fuel: nat, i: nat, j: nat)
    requires fuel > 0 && i <= j <= |rest|
    requires forall k :: i <= k < j ==> rest[k].inner.colour != colour
    ensures Scan(edges, rest[i..], colour, fuel) == Scan(edges, rest[j..], colour, fuel)
    decreases j - i
  {
    if i < j {
      assert rest[i..][1..] == rest[i + 1..];
      ScanSkip(edges, rest, colour, fuel, i + 1, j);
    }
  }

  /** ... and a pair that matches contributes its colour and that colour's
      containers ahead of the rest. */
  lemma ScanMatch(edges: seq<Edge>, rest: seq<Edge>, colour: string, fuel: nat, i: nat, up: seq<string>, more: seq<string>)
    requires fuel > 0 && i < |rest| && rest[i].inner.colour == colour
    requires Search(edges, rest[i].outer, fuel - 1) == Some(up)
    requires Scan(edges, rest[i + 1..], colour, fuel) == Some(more)
    ensures Scan(edges, rest[i..], colour, fuel) == Some([rest[i].outer] + up + more)
  {
    assert rest[i..][1..] == rest[i + 1..];
  }

  /** The same two steps of the counting loop. */
  lemma SumSkip(edges: seq<Edge>, rest: seq<Edge>, colour: string, fuel: nat, i: nat, j: nat)
    requires fuel > 0 && i <= j <= |rest|
    requires forall k :: i <= k < j ==> rest[k].outer != colour
    ensures SumInner(edges, rest[i..], colour, fuel) == SumInner(edges, rest[j..], colour, fuel)
    decreases j - i
  {
    if i < j {
      assert rest[i..][1..] == rest[i + 1..];
      SumSkip(edges, rest, colour, fuel, i + 1, j);
    }
  }

  lemma SumMatch(edges: seq<Edge>, rest: seq<Edge>, colour: string, fuel: nat, i: nat, each: int, more: int)
    requires fuel > 0 && i < |rest| && rest[i].outer == colour
    requires CountInner(edges, rest[i].inner.colour, fuel - 1) == Some(each)
    requires SumInner(edges, rest[i + 1..], colour, fuel) == Some(more)
    ensures SumInner(edges, rest[i..], colour, fuel) == Some(rest[i].inner.count * (1 + each) + more)
  {
    assert rest[i..][1..] == rest[i + 1..];
  }

  lemma ExampleOutermost(e: seq<Edge>, colour: string)
    requires ExampleShape(e) && (colour == "light red" || colour == "dark orange")
    ensures Search(e, colour, 1) == Some([])
  {
    ScanSkip(e, e, colour, 1, 0, 13);
    assert e[0..] == e && e[13..] == [];
  }

  lemma ExampleMiddle(e: seq<Edge>, colour: string)
    requires ExampleShape(e) && (colour == "bright white" || colour == "muted yellow")
    ensures Search(e, colour, 2) == Some(["light red", "dark orange"])
  {
    ExampleOutermost(e, "light red");
    ExampleOutermost(e, "dark orange");
    assert ["dark orange"] + [] + [] == ["dark orange"];
    assert ["light red"] + [] + ["dark orange"] == ["light red", "dark orange"];
    if colour == "bright white" {
      ExampleMiddleAt(e, colour, 0);
    } else {
      ExampleMiddleAt(e, colour, 1);
    }
  }

  /** The two containers of the colour held by the pairs at `b` and `b + 2`. */
  lemma ExampleMiddleAt(e: seq<Edge>, colour: string, b: nat)
    requires |e| == 13 && b + 3 <= 13
    requires e[b] == Edge("light red", Contents(colour, e[b].inner.count))
    requires e[b + 2] == Edge("dark orange", Contents(colour, e[b + 2].inner.count))
    requires forall k :: 0 <= k < 13 && k != b && k != b + 2 ==> e[k].inner.colour != colour
    requires Search(e, "light red", 1) == Some([]) && Search(e, "dark orange", 1) == Some([])
    ensures Search(e, colour, 2) == Some(["light red", "dark orange"])
  {
    ScanSkip(e, e, colour, 2, b + 3, 13);
    assert e[13..] == [];
    ScanMatch(e, e, colour, 2, b + 2, [], []);
    assert ["dark orange"] + [] + [] == ["dark orange"];
    ScanSkip(e, e, colour, 2, b + 1, b + 2);
    ScanMatch(e, e, colour, 2, b, [], ["dark orange"]);
    assert ["light red"] + [] + ["dark orange"] == ["light red", "dark orange"];
    ScanSkip(e, e, colour, 2, 0, b);
    assert e[0..] == e;
  }

  lemma ExampleGold(e: seq<Edge>)
    requires ExampleShape(e)
    ensures Search(e, "shiny gold", 3) ==
      Some(["bright white", "light red", "dark orange", "muted yellow", "light red", "dark orange"])
  {
    ExampleMiddle(e, "bright white");
    ExampleMiddle(e, "muted yellow");
    ExampleGoldAt(e, "shiny gold");
  }

  /** The colour held by the pairs at 4 and 5, whose rules' colours each
      have the two outermost colours above them. */
  lemma ExampleGoldAt(e: seq<Edge>, colour: string)
    requires |e| == 13
    requires e[4] == Edge("bright white", Contents(colour, e[4].inner.count))
    requires e[5] == Edge("muted yellow", Contents(colour, e[5].inner.count))
    requires forall k :: 0 <= k < 13 && k != 4 && k != 5 ==> e[k].inner.colour != colour
    requires Search(e, "bright white", 2) == Some(["light red", "dark orange"])
    requires Search(e, "muted yellow", 2) == Some(["light red", "dark orange"])
    ensures Search(e, colour, 3) ==
      Some(["bright white", "light red", "dark orange", "muted yellow", "light red", "dark orange"])
  {
    ScanSkip(e, e, colour, 3, 6, 13);
    assert e[13..] == [];
    ScanMatch(e, e, colour, 3, 5, ["light red", "dark orange"], []);
    assert ["muted yellow"] + ["light red", "dark orange"] + [] == ["muted yellow", "light red", "dark orange"];
    ScanMatch(e, e, colour, 3, 4, ["light red", "dark orange"], ["muted yellow", "light red", "dark orange"]);
    assert ["bright white"] + ["light red", "dark orange"] + ["muted yellow", "light red", "dark orange"] ==
      ["bright white", "light red", "dark orange", "muted yellow", "light red", "dark orange"];
    ScanSkip(e, e, colour, 3, 0, 4);
    assert e[0..] == e;
  }

  /** `count_bags` counts the distinct colours the search lists. */
  lemma CountBagsDistinct(rules: seq<Rule>, colour: string, fuel: nat, found: seq<string>)
    requires SearchForBag(rules, colour, fuel) == Some(found)
    ensures CountBags(rules, colour, fuel) == Some(|set x | x in found|)
  {
    LexIsTotalOrder();
    SortDedupCount(found, LexLe);
  }

  const ExampleFound := ["bright white", "light red", "dark orange", "muted yellow", "light red", "dark orange"]

  lemma ExampleFoundColours()
    ensures |set x | x in ExampleFound| == 4
  {
    assert (set x | x in ExampleFound) == {"bright white", "light red", "dark orange", "muted yellow"};
  }

  /** The example's search from "shiny gold" lists its four containers, two of
      them twice, and `count_bags` counts 4. */
  lemma ExampleSearch(rules: seq<Rule>)
    requires rules == ExampleRules
    ensures SearchForBag(rules, "shiny gold", 3) == Some(ExampleFound)
    ensures CountBags(rules, "shiny gold", 3) == Some(4)
  {
    ExampleSearchFound(rules);
    CountBagsDistinct(rules, "shiny gold", 3, ExampleFound);
    ExampleFoundColours();
  }

  lemma ExampleSearchFound(rules: seq<Rule>)
    requires rules == ExampleRules
    ensures SearchForBag(rules, "shiny gold", 3) == Some(ExampleFound)
  {
    ExampleEdgesOf(rules);
    ExampleShapeOf();
    ExampleGold(ExampleEdges);
  }

  lemma ExampleLeaf(e: seq<Edge>, colour: string, fuel: nat)
    requires ExampleShape(e) && fuel > 0 && (colour == "faded blue" || colour == "dotted black")
    ensures CountInner(e, colour, fuel) == Some(0)
  {
    SumSkip(e, e, colour, fuel, 0, 13);
    assert e[0..] == e && e[13..] == [];
  }

  lemma ExampleInnerMiddle(e: seq<Edge>)
    requires ExampleShape(e)
    ensures CountInner(e, "dark olive", 2) == Some(7)
    ensures CountInner(e, "vibrant plum", 2) == Some(11)
  {
    ExampleLeaf(e, "faded blue", 1);
    ExampleLeaf(e, "dotted black", 1);
    SumSkip(e, e, "dark olive", 2, 11, 13);
    SumMatch(e, e, "dark olive", 2, 10, 0, 0);
    SumMatch(e, e, "dark olive", 2, 9, 0, 4);
    SumSkip(e, e, "dark olive", 2, 0, 9);
    SumMatch(e, e, "vibrant plum", 2, 12, 0, 0);
    SumMatch(e, e, "vibrant plum", 2, 11, 0, 6);
    SumSkip(e, e, "vibrant plum", 2, 0, 11);
    assert e[0..] == e && e[13..] == [];
  }

  /** One shiny gold bag holds 32 others in the example. */
  lemma ExampleInner(rules: seq<Rule>)
    requires rules == ExampleRules
    ensures CountInnerBags(rules, "shiny gold", 3) == Some(32)
  {
    ExampleEdgesOf(rules);
    ExampleShapeOf();
    ExampleInnerGold(ExampleEdges);
  }

  lemma ExampleInnerGold(e: seq<Edge>)
    requires ExampleShape(e)
    ensures CountInner(e, "shiny gold", 3) == Some(32)
  {
    ExampleInnerMiddle(e);
    SumSkip(e, e, "shiny gold", 3, 9, 13);
    SumMatch(e, e, "shiny gold", 3, 8, 11, 0);
    SumMatch(e, e, "shiny gold", 3, 7, 7, 24);
    SumSkip(e, e, "shiny gold", 3, 0, 7);
    assert e[0..] == e && e[13..] == [];
  }

  /** A chain of `n` pairs each holding two of the next colour: the first
      colour holds 2 + 4 + ... + 2^n bags. The second example is the chain of
      six from "shiny gold", which holds 126. */
  predicate Doubling(e: seq<Edge>, chain: seq<string>)
  {
    && |chain| == |e| + 1
    && (forall k :: 0 <= k < |e| ==> e[k].outer == chain[k] && e[k].inner == Contents(chain[k + 1], 2))
    && Distinct(chain)
  }

  lemma {:induction false} DoublingCount(e: seq<Edge>, chain: seq<string>, i: nat)
    requires Doubling(e, chain) && i <= |e|
    ensures CountInner(e, chain[i], |e| - i + 1) == Some(Pow2(|e| - i + 1) - 2)
    decreases |e| - i
  {
    var fuel := |e| - i + 1;
    var colour := chain[i];
    assert forall k :: 0 <= k < |e| && k != i ==> e[k].outer != colour;
    assert CountInner(e, colour, fuel) == SumInner(e, e[0..], colour, fuel) by {
      assert e[0..] == e;
    }
    assert SumInner(e, e[|e|..], colour, fuel) == Some(0) by {
      assert e[|e|..] == [];
    }
    if i == |e| {
      SumSkip(e, e, colour, fuel, 0, |e|);
    } else {
      var each := Pow2(fuel - 1) - 2;
      DoublingCount(e, chain, i + 1);
      assert e[i].inner == Contents(chain[i + 1], 2);
      SumSkip(e, e, colour, fuel, i + 1, |e|);
      SumMatch(e, e, colour, fuel, i, each, 0);
      SumSkip(e, e, colour, fuel, 0, i);
      assert 2 * (1 + each) + 0 == Pow2(fuel) - 2;
    }
  }

  /** The rules of a chain: each colour holds two of the next, and the last
      holds nothing. */
  function LadderRules(chain: seq<string>): (r: seq<Rule>)
    requires |chain| > 0
    ensures |r| == |chain|
  {
    if |chain| == 1 then [Rule(chain[0], [])]
    else [Rule(chain[0], [Contents(chain[1], 2)])] + LadderRules(chain[1..])
  }

  /** The rules of a chain of distinct colours give its doubling pairs. */
  lemma {:induction false} LadderDoubles(chain: seq<string>)
    requires |chain| > 0 && Distinct(chain)
    ensures Doubling(Containments(LadderRules(chain)), chain)
  {
    var rules := LadderRules(chain);
    ContainmentsCons(rules[0], rules[1..]);
    assert rules == [rules[0]] + rules[1..];
    if |chain| > 1 {
      var rest := chain[1..];
      assert Distinct(rest) by {
        forall i, j | 0 <= i < j < |rest|
          ensures rest[i] != rest[j]
        {
          assert rest[i] == chain[i + 1] && rest[j] == chain[j + 1];
        }
      }
      LadderDoubles(rest);
      var tail := Containments(LadderRules(rest));
      var e := Containments(rules);
      assert e == [Edge(chain[0], Contents(chain[1], 2))] + tail;
      forall k | 0 <= k < |e|
        ensures e[k].outer == chain[k] && e[k].inner == Contents(chain[k + 1], 2)
      {
        if k > 0 {
          assert e[k] == tail[k - 1];
        }
      }
    }
  }

  /** The second example of src/day_7.rs: the chain of seven colours from
      "shiny gold" down to "dark violet". */
  const DoublingColours := ["shiny gold", "dark red", "dark orange", "dark yellow", "dark green", "dark blue", "dark violet"]

  const DoublingRules: seq<Rule> := LadderRules(DoublingColours)

  lemma DoublingDistinct()
    ensures Distinct(DoublingColours)
  {
    var c := DoublingColours;
    assert forall k :: 0 <= k < 7 ==> |c[k]| > 5 && c[k][5] == " roygbv"[k];
  }

  lemma DoublingExample(r: seq<Rule>)
    requires r == DoublingRules
    ensures CountInnerBags(r, "shiny gold", 7) == Some(126)
  {
    DoublingDistinct();
    LadderDoubles(DoublingColours);
    var e := Containments(r);
    DoublingCount(e, DoublingColours, 0);
    assert |e| == 6 && DoublingColours[0] == "shiny gold";
    assert Pow2(7) == 128;
  }
}
