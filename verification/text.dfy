/** Strings and sequences as the puzzle solvers use them: Rust's `str::split`
    with a string pattern, its inverse `join`, occurrence counting, and the
    UTF-8 byte view behind `str::len` and `str::as_bytes`. */
module Text {

  datatype Option<T> = None | Some(value: T)

  /** `pat` occurs in `s` starting at index `i`. */
  predicate OccursAt(s: string, pat: string, i: int)
  {
    0 <= i && i + |pat| <= |s| && s[i..i + |pat|] == pat
  }

  ghost predicate Contains(s: string, pat: string)
  {
    exists i :: OccursAt(s, pat, i)
  }

  /** The first occurrence of `pat` in `s` at or after index `from`. */
  function FindFrom(s: string, pat: string, from: nat): (r: Option<nat>)
    ensures r.Some? ==> from <= r.value && OccursAt(s, pat, r.value)
    ensures forall i :: from <= i && (r.None? || i < r.value) ==> !OccursAt(s, pat, i)
    decreases |s| - from
  {
    if from + |pat| > |s| then None
    else if s[from..from + |pat|] == pat then Some(from)
    else FindFrom(s, pat, from + 1)
  }

  /** The pieces of `parts` with `sep` between consecutive pieces. */
  function Join(parts: seq<string>, sep: string): string
  {
    if |parts| == 0 then ""
    else if |parts| == 1 then parts[0]
    else parts[0] + sep + Join(parts[1..], sep)
  }

  /** Rust's `s.split(sep)` for a non-empty string pattern: the pieces between
      the non-overlapping occurrences of `sep`, found left to right. */
  function Split(s: string, sep: string): (parts: seq<string>)
    requires |sep| > 0
    ensures |parts| >= 1
    ensures Join(parts, sep) == s
    ensures forall k :: 0 <= k < |parts| ==> !Contains(parts[k], sep)
    decreases |s|
  {
    match FindFrom(s, sep, 0)
    case None => [s]
    case Some(i) =>
      var head := s[..i];
      var rest := Split(s[i + |sep|..], sep);
      assert !Contains(head, sep) by {
        forall j | OccursAt(head, sep, j)
          ensures false
        {
          assert s[j..j + |sep|] == head[j..j + |sep|];
          assert OccursAt(s, sep, j);
        }
      }
      assert s == head + sep + s[i + |sep|..];
      [head] + rest
  }

  /** No occurrence of `sep` begins inside `p` when `p` is followed by `sep`:
      the condition under which `Split` finds the boundary right after `p`. */
  predicate EndsBeforeSeparator(p: string, sep: string)
  {
    forall j :: 0 <= j < |p| ==> !OccursAt(p + sep, sep, j)
  }

  /** For a one-character separator the boundary condition is just absence. */
  lemma CharSeparatorBoundary(p: string, c: char)
    requires forall k :: 0 <= k < |p| ==> p[k] != c
    ensures EndsBeforeSeparator(p, [c])
  {
    forall j | 0 <= j < |p|
      ensures !OccursAt(p + [c], [c], j)
    {
      assert (p + [c])[j] == p[j];
    }
  }

  /** Splitting a join gives the pieces back, provided no piece lets a
      separator start inside it. */
  lemma {:induction false} SplitJoin(parts: seq<string>, sep: string)
    requires |sep| > 0 && |parts| >= 1
    requires forall k :: 0 <= k < |parts| ==> EndsBeforeSeparator(parts[k], sep)
    requires !Contains(parts[|parts| - 1], sep)
    ensures Split(Join(parts, sep), sep) == parts
    decreases |parts|
  {
    if |parts| == 1 {
      assert Join(parts, sep) == parts[0];
    } else {
      var p := parts[0];
      var tail := Join(parts[1..], sep);
      var s := p + sep + tail;
      assert Join(parts, sep) == s;
      SplitFirst(p, sep, tail);
      var rest := parts[1..];
      assert Split(tail, sep) == rest by {
        SplitJoinTail(parts, sep);
        SplitJoin(rest, sep);
      }
      assert parts == [p] + rest;
    }
  }

  /** The pieces after the first still meet the conditions of `SplitJoin`. */
  lemma SplitJoinTail(parts: seq<string>, sep: string)
    requires |parts| >= 2
    requires forall k :: 0 <= k < |parts| ==> EndsBeforeSeparator(parts[k], sep)
    requires !Contains(parts[|parts| - 1], sep)
    ensures forall k :: 0 <= k < |parts[1..]| ==> EndsBeforeSeparator(parts[1..][k], sep)
    ensures !Contains(parts[1..][|parts| - 2], sep)
  {
    assert forall k :: 0 <= k < |parts[1..]| ==> parts[1..][k] == parts[k + 1];
  }

  /** Splitting `p + sep + tail` cuts `p` off first. */
  lemma SplitFirst(p: string, sep: string, tail: string)
    requires |sep| > 0 && EndsBeforeSeparator(p, sep)
    ensures Split(p + sep + tail, sep) == [p] + Split(tail, sep)
  {
    var s := p + sep + tail;
    FirstSeparator(p, sep, tail);
    SplitAt(s, sep, |p|);
    assert s[..|p|] == p && s[|p| + |sep|..] == tail;
  }

  /** The first separator of `p + sep + tail` is the one after `p`. */
  lemma FirstSeparator(p: string, sep: string, tail: string)
    requires |sep| > 0 && EndsBeforeSeparator(p, sep)
    ensures FindFrom(p + sep + tail, sep, 0) == Some(|p|)
  {
    var s := p + sep + tail;
    assert OccursAt(s, sep, |p|) by {
      assert s[|p|..|p| + |sep|] == sep;
    }
    var front := p + sep;
    assert s == front + tail;
    forall j | 0 <= j < |p|
      ensures !OccursAt(s, sep, j)
    {
      assert !OccursAt(front, sep, j);
      assert s[j..j + |sep|] == front[j..j + |sep|];
    }
  }

  /** `Split` cuts at the first separator. */
  lemma SplitAt(s: string, sep: string, i: nat)
    requires |sep| > 0 && FindFrom(s, sep, 0) == Some(i)
    ensures Split(s, sep) == [s[..i]] + Split(s[i + |sep|..], sep)
  {
  }

  predicate Lacks(s: string, c: char)
  {
    forall k :: 0 <= k < |s| ==> s[k] != c
  }

  /** Splitting on a character gives back pieces that do not contain it. */
  lemma SplitOnChar(parts: seq<string>, c: char)
    requires |parts| >= 1 && forall k :: 0 <= k < |parts| ==> Lacks(parts[k], c)
    ensures Split(Join(parts, [c]), [c]) == parts
  {
    forall k | 0 <= k < |parts|
      ensures EndsBeforeSeparator(parts[k], [c])
    {
      CharSeparatorBoundary(parts[k], c);
    }
    LacksFirst(parts[|parts| - 1], [c]);
    SplitJoin(parts, [c]);
  }

  lemma JoinTwo(a: string, b: string, sep: string)
    ensures Join([a, b], sep) == a + sep + b
  {
    assert [a, b][1..] == [b];
  }

  lemma JoinThree(a: string, b: string, c: string, sep: string)
    ensures Join([a, b, c], sep) == a + sep + b + sep + c
  {
    assert [a, b, c][1..] == [b, c];
    JoinTwo(b, c, sep);
  }

  /** A pattern that uses none of the characters of `mid` cannot straddle
      it: any occurrence in `a + mid + b` lies within `a` or within `b`. */
  lemma ContainsAcross(a: string, mid: string, b: string, pat: string)
    requires |pat| > 0 && |mid| > 0 && forall k :: 0 <= k < |mid| ==> Lacks(pat, mid[k])
    requires Contains(a + mid + b, pat)
    ensures Contains(a, pat) || Contains(b, pat)
  {
    var j :| OccursAt(a + mid + b, pat, j);
    OccurrenceSides(a, mid, b, pat, j);
  }

  /** Where an occurrence in `a + mid + b` lies: within `a`, within `b`, or
      over a character of `mid`. */
  lemma OccurrenceSides(a: string, mid: string, b: string, pat: string, j: int)
    requires |pat| > 0 && |mid| > 0 && OccursAt(a + mid + b, pat, j)
    ensures j + |pat| <= |a| ==> OccursAt(a, pat, j)
    ensures j >= |a| + |mid| ==> OccursAt(b, pat, j - |a| - |mid|)
    ensures j + |pat| > |a| && j < |a| + |mid| ==>
      var t := if j < |a| then |a| else j;
      0 <= t - j < |pat| && 0 <= t - |a| < |mid| && pat[t - j] == mid[t - |a|]
  {
    var s := a + mid + b;
    if j + |pat| <= |a| {
      assert a[j..j + |pat|] == s[j..j + |pat|];
    } else if j >= |a| + |mid| {
      assert b[j - |a| - |mid|..j - |a| - |mid| + |pat|] == s[j..j + |pat|];
    } else {
      var t := if j < |a| then |a| else j;
      assert s[t] == s[j..j + |pat|][t - j] == pat[t - j];
      assert s[t] == mid[t - |a|];
    }
  }

  lemma LacksConcat(a: string, b: string, c: char)
    requires Lacks(a, c) && Lacks(b, c)
    ensures Lacks(a + b, c)
  {
    forall k | 0 <= k < |a + b|
      ensures (a + b)[k] != c
    {
      if k >= |a| {
        assert (a + b)[k] == b[k - |a|];
      }
    }
  }

  /** A text without the pattern's first character does not contain it. */
  lemma LacksFirst(s: string, pat: string)
    requires |pat| > 0 && Lacks(s, pat[0])
    ensures !Contains(s, pat)
  {
  }

  lemma SubsetSize<T>(a: set<T>, b: set<T>)
    requires a <= b
    ensures |a| <= |b|
    decreases a
  {
    if a != {} {
      var x :| x in a;
      SubsetSize(a - {x}, b - {x});
    }
  }

  /** Number of positions of `s` holding `x`. */
  function Occurrences<T(==)>(s: seq<T>, x: T): nat
  {
    if |s| == 0 then 0
    else (if s[0] == x then 1 else 0) + Occurrences(s[1..], x)
  }

  /** The recursive count is the size of the set of positions holding `x`. */
  lemma OccurrencesArePositions<T>(s: seq<T>, x: T)
    ensures Occurrences(s, x) == |set i | 0 <= i < |s| && s[i] == x|
  {
    PrefixOccurrences(s, x, |s|);
    assert s[..|s|] == s;
  }

  lemma {:induction false} PrefixOccurrences<T>(s: seq<T>, x: T, n: nat)
    requires n <= |s|
    ensures Occurrences(s[..n], x) == |set i | 0 <= i < n && s[i] == x|
  {
    if n > 0 {
      PrefixOccurrences(s, x, n - 1);
      assert s[..n] == s[..n - 1] + [s[n - 1]];
      OccurrencesAppend(s[..n - 1], [s[n - 1]], x);
      assert Occurrences([s[n - 1]], x) == if s[n - 1] == x then 1 else 0;
      var before := set i | 0 <= i < n - 1 && s[i] == x;
      if s[n - 1] == x {
        assert (set i | 0 <= i < n && s[i] == x) == before + {n - 1};
      } else {
        assert (set i | 0 <= i < n && s[i] == x) == before;
      }
    }
  }

  lemma {:induction false} OccurrencesAppend<T>(a: seq<T>, b: seq<T>, x: T)
    ensures Occurrences(a + b, x) == Occurrences(a, x) + Occurrences(b, x)
  {
    if |a| > 0 {
      assert (a + b)[1..] == a[1..] + b;
      OccurrencesAppend(a[1..], b, x);
    } else {
      assert a + b == b;
    }
  }

  /** Counting one more element of a prefix. */
  lemma OccurrencesStep<T>(s: seq<T>, x: T, k: nat)
    requires k < |s|
    ensures Occurrences(s[..k + 1], x) == Occurrences(s[..k], x) + (if s[k] == x then 1 else 0)
  {
    assert s[..k + 1] == s[..k] + [s[k]];
    OccurrencesAppend(s[..k], [s[k]], x);
  }

  /** The count is the multiplicity, so permutations keep it. */
  lemma {:induction false} OccurrencesMultiset<T>(s: seq<T>, x: T)
    ensures Occurrences(s, x) == multiset(s)[x]
  {
    if |s| > 0 {
      OccurrencesMultiset(s[1..], x);
      assert s == [s[0]] + s[1..];
      assert multiset(s) == multiset{s[0]} + multiset(s[1..]);
    }
  }

  /** A count is bounded by the length, and it is positive exactly for members. */
  lemma {:induction false} OccurrencesBounds<T>(s: seq<T>, x: T)
    ensures Occurrences(s, x) <= |s|
    ensures Occurrences(s, x) > 0 <==> x in s
  {
    if |s| > 0 {
      OccurrencesBounds(s[1..], x);
      assert x in s <==> s[0] == x || x in s[1..];
    }
  }

  /** `Vec::retain` of everything but `c`. */
  function Without<T(==)>(s: seq<T>, c: T): (r: seq<T>)
    ensures multiset(r) == multiset(s)[c := 0]
  {
    if |s| == 0 then []
    else
      var rest := Without(s[1..], c);
      assert s == [s[0]] + s[1..];
      if s[0] == c then rest
      else
        assert ([s[0]] + rest)[1..] == rest;
        [s[0]] + rest
  }

  lemma {:induction false} WithoutAppend<T>(a: seq<T>, b: seq<T>, c: T)
    ensures Without(a + b, c) == Without(a, c) + Without(b, c)
  {
    if |a| > 0 {
      assert (a + b)[1..] == a[1..] + b;
      WithoutAppend(a[1..], b, c);
    } else {
      assert a + b == b;
    }
  }

  // ---------------------------------------------------------------------------
  // UTF-8: Rust strings are byte buffers; `len` and `as_bytes` see those bytes.

  newtype byte = x: int | 0 <= x < 0x100

  /** Number of bytes UTF-8 uses for `c`. */
  function Utf8Width(c: char): nat
  {
    if c as int < 0x80 then 1
    else if c as int < 0x800 then 2
    else if c as int < 0x1_0000 then 3
    else 4
  }

  /** UTF-8 encoding of one Unicode scalar value. */
  function EncodeChar(c: char): (bytes: seq<byte>)
    ensures |bytes| == Utf8Width(c)
    ensures bytes[0] < 0x80 <==> c as int < 0x80
    ensures c as int < 0x80 ==> bytes == [c as int as byte]
  {
    var v := c as int;
    if v < 0x80 then [v as byte]
    else if v < 0x800 then [(0xC0 + v / 0x40) as byte, (0x80 + v % 0x40) as byte]
    else if v < 0x1_0000 then
      [(0xE0 + v / 0x1000) as byte, (0x80 + (v / 0x40) % 0x40) as byte, (0x80 + v % 0x40) as byte]
    else
      [(0xF0 + v / 0x4_0000) as byte, (0x80 + (v / 0x1000) % 0x40) as byte,
       (0x80 + (v / 0x40) % 0x40) as byte, (0x80 + v % 0x40) as byte]
  }

  /** `s.as_bytes()`. */
  function Utf8(s: string): (bytes: seq<byte>)
    ensures |bytes| == Utf8Length(s)
  {
    if |s| == 0 then [] else EncodeChar(s[0]) + Utf8(s[1..])
  }

  /** `s.len()`: the length in bytes. */
  function Utf8Length(s: string): nat
  {
    if |s| == 0 then 0 else Utf8Width(s[0]) + Utf8Length(s[1..])
  }

  /** Every character takes at least one byte. */
  lemma {:induction false} Utf8LengthAtLeast(s: string)
    ensures Utf8Length(s) >= |s|
  {
    if |s| > 0 {
      Utf8LengthAtLeast(s[1..]);
    }
  }

  predicate IsAscii(s: string)
  {
    forall k :: 0 <= k < |s| ==> s[k] as int < 0x80
  }

  /** On ASCII text the byte view and the character view coincide. */
  lemma {:induction false} AsciiBytes(s: string)
    requires IsAscii(s)
    ensures Utf8Length(s) == |s|
    ensures forall k :: 0 <= k < |s| ==> Utf8(s)[k] == s[k] as int as byte
  {
    if |s| > 0 {
      AsciiBytes(s[1..]);
      assert Utf8(s) == [s[0] as int as byte] + Utf8(s[1..]);
      forall k | 0 < k < |s|
        ensures Utf8(s)[k] == s[k] as int as byte
      {
        assert s[1..][k - 1] == s[k];
      }
    }
  }

  /** The number of leading characters of `s` that make up exactly `n` bytes,
      or None when byte `n` is past the end or inside a character (Rust's
      `&s[..n]` panics in both cases). */
  function CharsInBytes(s: string, n: nat): (r: Option<nat>)
    ensures r.Some? ==> r.value <= |s| && Utf8Length(s[..r.value]) == n
    decreases |s|
  {
    if n == 0 then
      assert s[..0] == [];
      Some(0)
    else if |s| == 0 || Utf8Width(s[0]) > n then None
    else match CharsInBytes(s[1..], n - Utf8Width(s[0]))
      case None => None
      case Some(k) =>
        assert s[..k + 1][1..] == s[1..][..k];
        Some(k + 1)
  }

  /** And None only when no prefix of `s` is exactly `n` bytes long. */
  lemma {:induction false} CharsInBytesNone(s: string, n: nat)
    requires CharsInBytes(s, n).None?
    ensures forall k :: 0 <= k <= |s| ==> Utf8Length(s[..k]) != n
    decreases |s|
  {
    forall k | 0 <= k <= |s|
      ensures Utf8Length(s[..k]) != n
    {
      if k > 0 {
        assert s[..k][1..] == s[1..][..k - 1];
        if Utf8Width(s[0]) <= n {
          CharsInBytesNone(s[1..], n - Utf8Width(s[0]));
        }
      }
    }
  }

  /** On ASCII text, byte `n` is the boundary after character `n`. */
  lemma {:induction false} AsciiCharsInBytes(s: string, n: nat)
    requires IsAscii(s) && n <= |s|
    ensures CharsInBytes(s, n) == Some(n)
    decreases n
  {
    if n > 0 {
      AsciiCharsInBytes(s[1..], n - 1);
    }
  }
}
