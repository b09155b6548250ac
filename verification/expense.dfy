/** Day 1: the expense report. The entries are the lines of a file, kept as
    strings and parsed as `i32` only when a window reaches them. The search
    looks at adjacent entries only: pairs for `find_sum_2`, triples for
    `find_sum_3`, left to right, and stops at the first window with the
    desired sum. */
module Expense {
  import opened Text
  import opened Numbers

  /** What a search comes to: the first matching window, no window at all,
      or a panic from `unwrap` on an entry that does not parse. */
  datatype Search<T> = Found(value: T) | NotFound | Panic

  function Sum(s: seq<int>): int
  {
    if |s| == 0 then 0 else s[0] + Sum(s[1..])
  }

  /** Each entry as `parse::<i32>` sees it. Parsing is pure, so parsing all
      entries up front and looking them up when a window reaches them is the
      same as parsing each one there. */
  function Entries(numbers: seq<string>): (r: seq<Option<int>>)
    ensures |r| == |numbers|
    ensures forall k :: 0 <= k < |numbers| ==> r[k] == ParseI32(numbers[k])
  {
    seq(|numbers|, k requires 0 <= k < |numbers| => ParseI32(numbers[k]))
  }

  /** Every entry's value, or None if one of them has none. */
  function AllSome(entries: seq<Option<int>>): (r: Option<seq<int>>)
    ensures r.Some? <==> forall k :: 0 <= k < |entries| ==> entries[k].Some?
    ensures r.Some? ==> (|r.value| == |entries| &&
      forall k :: 0 <= k < |entries| ==> entries[k] == Some(r.value[k]))
  {
    if |entries| == 0 then Some([])
    else
      match (entries[0], AllSome(entries[1..]))
      case (Some(v), Some(rest)) =>
        assert forall k :: 1 <= k < |entries| ==> entries[k] == entries[1..][k - 1];
        Some([v] + rest)
      case (None, _) => None
      case (_, None) =>
        assert forall k :: 1 <= k < |entries| ==> entries[k] == entries[1..][k - 1];
        None
  }

  /** The entries hold exactly these values. */
  predicate Holds(entries: seq<Option<int>>, values: seq<int>)
  {
    |entries| == |values| && forall k :: 0 <= k < |entries| ==> entries[k] == Some(values[k])
  }

  /** A window of entries holding values holds the same window of values. */
  lemma AllSomeWindow(entries: seq<Option<int>>, values: seq<int>, i: nat, j: nat)
    requires Holds(entries, values) && i <= j <= |entries|
    ensures AllSome(entries[i..j]) == Some(values[i..j])
  {
    var window := entries[i..j];
    assert forall k :: 0 <= k < |window| ==> window[k] == entries[i + k];
    var r := AllSome(window);
    assert r.Some?;
    assert r.value == values[i..j];
  }

  /** A window with an entry without a value comes from such an entry. */
  lemma WindowPanics(entries: seq<Option<int>>, i: nat, width: nat)
    requires i + width <= |entries| && AllSome(entries[i..i + width]).None?
    ensures exists k :: i <= k < |entries| && entries[k].None?
  {
    var window := entries[i..i + width];
    var k :| 0 <= k < |window| && window[k].None?;
    assert window[k] == entries[i + k];
  }

  // ---------------------------------------------------------------------------
  // The loop over `numbers.windows(width)`.

  /** The loop from window `i` on: each window's entries are unwrapped (a
      panic if one does not parse) and the window is returned if they add up
      to `desired`. */
  function SearchFrom(entries: seq<Option<int>>, width: nat, desired: int, i: nat): (r: Search<seq<int>>)
    requires width > 0
    ensures r.Found? ==> |r.value| == width && Sum(r.value) == desired
    ensures r.Panic? ==> exists k :: i <= k < |entries| && entries[k].None?
    ensures i + width > |entries| ==> r.NotFound?
    ensures r.NotFound? && i + width <= |entries| ==> forall k :: i <= k < |entries| ==> entries[k].Some?
    decreases |entries| - i
  {
    if i + width > |entries| then NotFound
    else
      match AllSome(entries[i..i + width])
      case None =>
        WindowPanics(entries, i, width);
        Panic
      case Some(window) =>
        if Sum(window) == desired then Found(window) else SearchFrom(entries, width, desired, i + 1)
  }

  /** The window at `j` holds no parsed values with the desired sum. */
  predicate WindowMisses(entries: seq<Option<int>>, width: nat, desired: int, j: nat)
    requires j + width <= |entries|
  {
    AllSome(entries[j..j + width]).Some? ==> Sum(AllSome(entries[j..j + width]).value) != desired
  }

  /** The converse of the panic clause: when the entries from `i` parse up
      to an entry `k` that does not, and no window lying before `k` has the
      desired sum, the loop reaches a window holding `k` and panics. */
  lemma {:induction false} SearchFromPanics(entries: seq<Option<int>>, width: nat, desired: int, i: nat, k: nat)
    requires width > 0 && i <= k < |entries| && i + width <= |entries|
    requires entries[k].None?
    requires forall j :: i <= j && j + width <= k ==> WindowMisses(entries, width, desired, j)
    ensures SearchFrom(entries, width, desired, i) == Panic
    decreases k - i
  {
    var window := entries[i..i + width];
    if k < i + width {
      assert window[k - i] == entries[k];
      assert AllSome(window).None?;
    } else {
      assert WindowMisses(entries, width, desired, i);
      match AllSome(window)
      case None =>
      case Some(w) =>
        SearchFromStep(entries, width, desired, i, w);
        SearchFromPanics(entries, width, desired, i + 1, k);
    }
  }

  /** The window at `j` parses, and its values miss the desired sum. */
  predicate ParsedMiss(entries: seq<Option<int>>, width: nat, desired: int, j: nat)
    requires j + width <= |entries|
  {
    AllSome(entries[j..j + width]).Some? && WindowMisses(entries, width, desired, j)
  }

  /** The loop returns the first window with the desired sum whatever comes
      after it: the windows from `i` up to `j` parse and miss, window `j`
      parses and hits, and the entries past it are never unwrapped. */
  lemma {:induction false} SearchFromFinds(entries: seq<Option<int>>, width: nat, desired: int, i: nat, j: nat, window: seq<int>)
    requires width > 0 && i <= j && j + width <= |entries|
    requires forall l :: i <= l < j ==> ParsedMiss(entries, width, desired, l)
    requires AllSome(entries[j..j + width]) == Some(window) && Sum(window) == desired
    ensures SearchFrom(entries, width, desired, i) == Found(window)
    decreases j - i
  {
    if i == j {
      SearchFromStep(entries, width, desired, i, window);
    } else {
      assert ParsedMiss(entries, width, desired, i);
      SearchFromStep(entries, width, desired, i, AllSome(entries[i..i + width]).value);
      SearchFromFinds(entries, width, desired, i + 1, j, window);
    }
  }

  /** `find_sum_2`. */
  function FindSum2(numbers: seq<string>, desired: int): (r: Search<(int, int)>)
    ensures |numbers| < 2 ==> r.NotFound?
    ensures r.Panic? ==> exists k :: 0 <= k < |numbers| && ParseI32(numbers[k]).None?
    ensures r.NotFound? && |numbers| >= 2 ==> forall k :: 0 <= k < |numbers| ==> ParseI32(numbers[k]).Some?
  {
    match SearchFrom(Entries(numbers), 2, desired, 0)
    case Found(w) => Found((w[0], w[1]))
    case NotFound => NotFound
    case Panic => Panic
  }

  /** `find_sum_3`. */
  function FindSum3(numbers: seq<string>, desired: int): (r: Search<(int, int, int)>)
    ensures |numbers| < 3 ==> r.NotFound?
    ensures r.Panic? ==> exists k :: 0 <= k < |numbers| && ParseI32(numbers[k]).None?
    ensures r.NotFound? && |numbers| >= 3 ==> forall k :: 0 <= k < |numbers| ==> ParseI32(numbers[k]).Some?
  {
    match SearchFrom(Entries(numbers), 3, desired, 0)
    case Found(w) => Found((w[0], w[1], w[2]))
    case NotFound => NotFound
    case Panic => Panic
  }

  // ---------------------------------------------------------------------------
  // The same search stated on the parsed values.

  predicate SumsAt(values: seq<int>, width: nat, desired: int, j: nat)
    requires j + width <= |values|
  {
    Sum(values[j..j + width]) == desired
  }

  /** The first window at or after `i` with the desired sum. */
  function FirstWindow(values: seq<int>, width: nat, desired: int, i: nat): (r: Option<nat>)
    ensures r.Some? ==> i <= r.value && r.value + width <= |values| && SumsAt(values, width, desired, r.value)
    ensures forall j :: i <= j && j + width <= |values| && (r.None? || j < r.value) ==>
      !SumsAt(values, width, desired, j)
    decreases |values| - i
  {
    if i + width > |values| then None
    else if SumsAt(values, width, desired, i) then Some(i)
    else FirstWindow(values, width, desired, i + 1)
  }

  /** When every entry parses, the loop never panics and returns the values
      of the first adjacent window with the desired sum, or nothing if no
      window has it. */
  lemma {:induction false} SearchFromMeaning(entries: seq<Option<int>>, values: seq<int>, width: nat, desired: int, i: nat)
    requires width > 0 && Holds(entries, values)
    ensures SearchFrom(entries, width, desired, i) ==
      match FirstWindow(values, width, desired, i)
      case None => NotFound
      case Some(j) => Found(values[j..j + width])
    decreases |entries| - i
  {
    if i + width <= |entries| {
      var window := values[i..i + width];
      AllSomeWindow(entries, values, i, i + width);
      SearchFromStep(entries, width, desired, i, window);
      assert FirstWindow(values, width, desired, i) ==
        if Sum(window) == desired then Some(i) else FirstWindow(values, width, desired, i + 1);
      if Sum(window) != desired {
        SearchFromMeaning(entries, values, width, desired, i + 1);
      }
    }
  }

  /** One turn of the loop over a window whose entries all parse. */
  lemma SearchFromStep(entries: seq<Option<int>>, width: nat, desired: int, i: nat, window: seq<int>)
    requires width > 0 && i + width <= |entries| && AllSome(entries[i..i + width]) == Some(window)
    ensures SearchFrom(entries, width, desired, i) ==
      if Sum(window) == desired then Found(window) else SearchFrom(entries, width, desired, i + 1)
  {
  }

  /** Every entry is the rendering of a value of `values`. */
  predicate ParsesTo(numbers: seq<string>, values: seq<int>)
  {
    |numbers| == |values| && forall k :: 0 <= k < |numbers| ==> ParseI32(numbers[k]) == Some(values[k])
  }

  /** `find_sum_2` finds the first adjacent pair adding up to `desired`. */
  lemma FindSum2Meaning(numbers: seq<string>, values: seq<int>, desired: int)
    requires ParsesTo(numbers, values)
    ensures FindSum2(numbers, desired) ==
      match FirstWindow(values, 2, desired, 0)
      case None => NotFound
      case Some(j) => Found((values[j], values[j + 1]))
  {
    SearchFromMeaning(Entries(numbers), values, 2, desired, 0);
  }

  /** `find_sum_3` finds the first adjacent triple adding up to `desired`. */
  lemma FindSum3Meaning(numbers: seq<string>, values: seq<int>, desired: int)
    requires ParsesTo(numbers, values)
    ensures FindSum3(numbers, desired) ==
      match FirstWindow(values, 3, desired, 0)
      case None => NotFound
      case Some(j) => Found((values[j], values[j + 1], values[j + 2]))
  {
    SearchFromMeaning(Entries(numbers), values, 3, desired, 0);
  }

  /** `find_sum_2` panics when the first entry that does not parse comes
      before any adjacent pair with the desired sum. */
  lemma FindSum2Panics(numbers: seq<string>, desired: int, k: nat)
    requires 2 <= |numbers| && k < |numbers| && ParseI32(numbers[k]).None?
    requires forall j :: 0 <= j < k ==> ParseI32(numbers[j]).Some?
    requires forall j :: 0 <= j && j + 2 <= k ==> ParseI32(numbers[j]).value + ParseI32(numbers[j + 1]).value != desired
    ensures FindSum2(numbers, desired) == Panic
  {
    var entries := Entries(numbers);
    forall j | 0 <= j && j + 2 <= k
      ensures WindowMisses(entries, 2, desired, j)
    {
      PairWindow(numbers, j);
    }
    SearchFromPanics(entries, 2, desired, 0, k);
  }

  /** `find_sum_3` panics when the first entry that does not parse comes
      before any adjacent triple with the desired sum. */
  lemma FindSum3Panics(numbers: seq<string>, desired: int, k: nat)
    requires 3 <= |numbers| && k < |numbers| && ParseI32(numbers[k]).None?
    requires forall j :: 0 <= j < k ==> ParseI32(numbers[j]).Some?
    requires forall j :: 0 <= j && j + 3 <= k ==>
      ParseI32(numbers[j]).value + ParseI32(numbers[j + 1]).value + ParseI32(numbers[j + 2]).value != desired
    ensures FindSum3(numbers, desired) == Panic
  {
    var entries := Entries(numbers);
    forall j | 0 <= j && j + 3 <= k
      ensures WindowMisses(entries, 3, desired, j)
    {
      TripleWindow(numbers, j);
    }
    SearchFromPanics(entries, 3, desired, 0, k);
  }

  /** `find_sum_2` returns the first adjacent pair with the desired sum
      when every entry up to it parses, even if a later entry does not. */
  lemma FindSum2Finds(numbers: seq<string>, desired: int, j: nat)
    requires j + 2 <= |numbers|
    requires forall l :: 0 <= l < j + 2 ==> ParseI32(numbers[l]).Some?
    requires forall l :: 0 <= l < j ==> ParseI32(numbers[l]).value + ParseI32(numbers[l + 1]).value != desired
    requires ParseI32(numbers[j]).value + ParseI32(numbers[j + 1]).value == desired
    ensures FindSum2(numbers, desired) == Found((ParseI32(numbers[j]).value, ParseI32(numbers[j + 1]).value))
  {
    var entries := Entries(numbers);
    forall l | 0 <= l < j
      ensures ParsedMiss(entries, 2, desired, l)
    {
      PairWindow(numbers, l);
    }
    PairWindow(numbers, j);
    SearchFromFinds(entries, 2, desired, 0, j, [ParseI32(numbers[j]).value, ParseI32(numbers[j + 1]).value]);
  }

  /** `find_sum_3` returns the first adjacent triple with the desired sum
      when every entry up to it parses, even if a later entry does not. */
  lemma FindSum3Finds(numbers: seq<string>, desired: int, j: nat)
    requires j + 3 <= |numbers|
    requires forall l :: 0 <= l < j + 3 ==> ParseI32(numbers[l]).Some?
    requires forall l :: 0 <= l < j ==>
      ParseI32(numbers[l]).value + ParseI32(numbers[l + 1]).value + ParseI32(numbers[l + 2]).value != desired
    requires ParseI32(numbers[j]).value + ParseI32(numbers[j + 1]).value + ParseI32(numbers[j + 2]).value == desired
    ensures FindSum3(numbers, desired) ==
      Found((ParseI32(numbers[j]).value, ParseI32(numbers[j + 1]).value, ParseI32(numbers[j + 2]).value))
  {
    var entries := Entries(numbers);
    forall l | 0 <= l < j
      ensures ParsedMiss(entries, 3, desired, l)
    {
      TripleWindow(numbers, l);
    }
    TripleWindow(numbers, j);
    SearchFromFinds(entries, 3, desired, 0, j,
      [ParseI32(numbers[j]).value, ParseI32(numbers[j + 1]).value, ParseI32(numbers[j + 2]).value]);
  }

  /** The pair window at `j` of entries that parse holds their values. */
  lemma PairWindow(numbers: seq<string>, j: nat)
    requires j + 2 <= |numbers| && ParseI32(numbers[j]).Some? && ParseI32(numbers[j + 1]).Some?
    ensures var a, b := ParseI32(numbers[j]).value, ParseI32(numbers[j + 1]).value;
      AllSome(Entries(numbers)[j..j + 2]) == Some([a, b]) && Sum([a, b]) == a + b
  {
    var entries := Entries(numbers);
    var values := [ParseI32(numbers[j]).value, ParseI32(numbers[j + 1]).value];
    assert Holds(entries[j..j + 2], values);
    AllSomeWindow(entries[j..j + 2], values, 0, 2);
    assert entries[j..j + 2][0..2] == entries[j..j + 2] && values[0..2] == values;
    SumShort(values[0], values[1], 0);
  }

  /** The triple window at `j` of entries that parse holds their values. */
  lemma TripleWindow(numbers: seq<string>, j: nat)
    requires j + 3 <= |numbers|
    requires ParseI32(numbers[j]).Some? && ParseI32(numbers[j + 1]).Some? && ParseI32(numbers[j + 2]).Some?
    ensures var a, b, c := ParseI32(numbers[j]).value, ParseI32(numbers[j + 1]).value, ParseI32(numbers[j + 2]).value;
      AllSome(Entries(numbers)[j..j + 3]) == Some([a, b, c]) && Sum([a, b, c]) == a + b + c
  {
    var entries := Entries(numbers);
    var values := [ParseI32(numbers[j]).value, ParseI32(numbers[j + 1]).value, ParseI32(numbers[j + 2]).value];
    assert Holds(entries[j..j + 3], values);
    AllSomeWindow(entries[j..j + 3], values, 0, 3);
    assert entries[j..j + 3][0..3] == entries[j..j + 3] && values[0..3] == values;
    SumShort(values[0], values[1], values[2]);
  }

  lemma SumShort(a: int, b: int, c: int)
    ensures Sum([a, b]) == a + b && Sum([a, b, c]) == a + b + c
  {
    assert [a, b][1..] == [b] && [b][1..] == [];
    assert Sum([b]) == b;
    assert [a, b, c][1..] == [b, c] && [b, c][1..] == [c] && [c][1..] == [];
    assert Sum([c]) == c;
    assert Sum([b, c]) == b + c;
  }

  /** An entry that does not parse, reached before any pair, panics: on
      1, x, 5 the first pair already holds it. */
  lemma ExampleBadEntry(numbers: seq<string>)
    requires numbers == ["1", "x", "5"]
    ensures FindSum2(numbers, 100) == Panic
  {
    assert ParseI32(numbers[1]).None?;
    ParseShowSigned(1, I32Min, I32Max);
    assert ShowInt(1) == "1";
    FindSum2Panics(numbers, 100, 1);
  }

  /** An entry that does not parse after the first matching pair is never
      reached: on 3, 4, 1, 6, x with sum 7 the answer is (3, 4), not (1, 6). */
  lemma ExampleBadEntryAfterMatch(numbers: seq<string>)
    requires numbers == ["3", "4", "1", "6", "x"]
    ensures FindSum2(numbers, 7) == Found((3, 4))
  {
    ParseShowSigned(3, I32Min, I32Max);
    ParseShowSigned(4, I32Min, I32Max);
    assert ShowInt(3) == "3" && ShowInt(4) == "4";
    FindSum2Finds(numbers, 7, 0);
  }

  /** Adjacent means adjacent: a pair that adds up but is not next to each
      other is not found. */
  lemma OnlyAdjacent(numbers: seq<string>)
    requires numbers == ["1", "5", "2"]
    ensures FindSum2(numbers, 3) == NotFound
  {
    var values := [1, 5, 2];
    ParseShowSigned(1, I32Min, I32Max);
    ParseShowSigned(5, I32Min, I32Max);
    ParseShowSigned(2, I32Min, I32Max);
    assert ShowInt(1) == "1" && ShowInt(5) == "5" && ShowInt(2) == "2";
    assert ParsesTo(numbers, values);
    FindSum2Meaning(numbers, values, 3);
    assert values[0..2] == [1, 5] && values[1..3] == [5, 2];
  }

  // ---------------------------------------------------------------------------
  // The examples of src/day_1.rs, on the entries "1" to "4".

  lemma ExampleValues(numbers: seq<string>)
    requires numbers == ["1", "2", "3", "4"]
    ensures ParsesTo(numbers, [1, 2, 3, 4])
  {
    ParseShowSigned(1, I32Min, I32Max);
    ParseShowSigned(2, I32Min, I32Max);
    ParseShowSigned(3, I32Min, I32Max);
    ParseShowSigned(4, I32Min, I32Max);
    assert ShowInt(1) == "1" && ShowInt(2) == "2" && ShowInt(3) == "3" && ShowInt(4) == "4";
  }

  lemma ExamplePair(numbers: seq<string>)
    requires numbers == ["1", "2", "3", "4"]
    ensures FindSum2(numbers, 7) == Found((3, 4))
    ensures FindSum2(numbers, 11) == NotFound
  {
    var values := [1, 2, 3, 4];
    ExampleValues(numbers);
    FindSum2Meaning(numbers, values, 7);
    FindSum2Meaning(numbers, values, 11);
    ExamplePairWindows(values);
  }

  lemma ExampleTriple(numbers: seq<string>)
    requires numbers == ["1", "2", "3", "4"]
    ensures FindSum3(numbers, 6) == Found((1, 2, 3))
    ensures FindSum3(numbers, 11) == NotFound
  {
    var values := [1, 2, 3, 4];
    ExampleValues(numbers);
    FindSum3Meaning(numbers, values, 6);
    FindSum3Meaning(numbers, values, 11);
    ExampleTripleWindows(values);
  }

  lemma ExamplePairWindows(values: seq<int>)
    requires values == [1, 2, 3, 4]
    ensures FirstWindow(values, 2, 7, 0) == Some(2)
    ensures FirstWindow(values, 2, 11, 0).None?
  {
    assert values[0..2] == [1, 2] && values[1..3] == [2, 3] && values[2..4] == [3, 4];
    assert Sum([1, 2]) == 3 && Sum([2, 3]) == 5 && Sum([3, 4]) == 7;
    assert FirstWindow(values, 2, 7, 1) == FirstWindow(values, 2, 7, 2) == Some(2);
    assert FirstWindow(values, 2, 11, 2) == FirstWindow(values, 2, 11, 3) == None;
    assert FirstWindow(values, 2, 11, 0) == FirstWindow(values, 2, 11, 1) == FirstWindow(values, 2, 11, 2);
  }

  lemma ExampleTripleWindows(values: seq<int>)
    requires values == [1, 2, 3, 4]
    ensures FirstWindow(values, 3, 6, 0) == Some(0)
    ensures FirstWindow(values, 3, 11, 0).None?
  {
    assert values[0..3] == [1, 2, 3] && values[1..4] == [2, 3, 4];
    assert Sum([1, 2, 3]) == 6 && Sum([2, 3, 4]) == 9;
    assert FirstWindow(values, 3, 11, 0) == FirstWindow(values, 3, 11, 1) == FirstWindow(values, 3, 11, 2) == None;
  }
}
