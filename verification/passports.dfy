/** Day 4: passport records. The input is split on blank lines into records;
    a record's field tags are what the pattern `([a-z]{3}):` captures, left
    to right. With `cid` removed and the rest sorted, a record is valid when
    its tags are exactly the seven mandatory ones. */
module Passports {
  import opened Text
  import opened Sorting

  predicate IsLower(c: char)
  {
    'a' <= c <= 'z'
  }

  /** The pattern matches at the start of `s`: three lower-case letters and
      a colon. */
  predicate TagAtStart(s: string)
  {
    |s| >= 4 && IsLower(s[0]) && IsLower(s[1]) && IsLower(s[2]) && s[3] == ':'
  }

  /** `captures_iter`: the leftmost match, then the search resumes after it.
      A match has a fixed length of four. */
  function Tags(s: string): (r: seq<string>)
    ensures forall k :: 0 <= k < |r| ==> |r[k]| == 3 && IsLower(r[k][0]) && IsLower(r[k][1]) && IsLower(r[k][2])
    decreases |s|
  {
    if |s| < 4 then []
    else if TagAtStart(s) then [s[..3]] + Tags(s[4..])
    else Tags(s[1..])
  }

  /** Reference: the text at every position where the pattern matches, from
      left to right, with no regard for overlap. */
  function AllTags(s: string): (r: seq<string>)
    decreases |s|
  {
    if |s| < 4 then []
    else (if TagAtStart(s) then [s[..3]] else []) + AllTags(s[1..])
  }

  /** The pattern matches at position `i` of `s`, capturing `t`. */
  predicate MatchAt(s: string, t: string, i: int)
  {
    0 <= i && i + 4 <= |s| && TagAtStart(s[i..]) && s[i..i + 3] == t
  }

  /** The reference holds a tag exactly when the pattern matches it at some
      position of the text. */
  lemma {:induction false} AllTagsPositions(s: string, t: string)
    ensures t in AllTags(s) <==> exists i :: MatchAt(s, t, i)
    decreases |s|
  {
    if |s| >= 4 {
      var tail := s[1..];
      AllTagsPositions(tail, t);
      assert TagAtStart(s) && s[..3] == t <==> MatchAt(s, t, 0) by {
        assert s[0..] == s && s[0..3] == s[..3];
      }
      forall i | MatchAt(tail, t, i)
        ensures MatchAt(s, t, i + 1)
      {
        assert tail[i..] == s[i + 1..] && tail[i..i + 3] == s[i + 1..i + 4];
      }
      forall i | 0 < i && MatchAt(s, t, i)
        ensures MatchAt(tail, t, i - 1)
      {
        assert tail[i - 1..] == s[i..] && tail[i - 1..i + 2] == s[i..i + 3];
      }
    } else {
      forall i | MatchAt(s, t, i)
        ensures false
      {
      }
    }
  }

  /** Matches of `([a-z]{3}):` cannot overlap, because a colon is not a
      lower-case letter: resuming after each match finds the pattern at
      every position where it occurs. */
  lemma {:induction false} TagsEveryPosition(s: string)
    ensures Tags(s) == AllTags(s)
    decreases |s|
  {
    if |s| >= 4 {
      if TagAtStart(s) {
        TagsEveryPosition(s[4..]);
        SkipColon(s);
      } else {
        TagsEveryPosition(s[1..]);
      }
    }
  }

  /** The three positions after the start of a match hold no match. */
  lemma SkipColon(s: string)
    requires TagAtStart(s)
    ensures AllTags(s[1..]) == AllTags(s[4..])
  {
    var s1, s2, s3 := s[1..], s[2..], s[3..];
    assert s1[2] == ':' && s2[1] == ':' && s3[0] == ':';
    assert s1[1..] == s2 && s2[1..] == s3 && s3[1..] == s[4..];
    if |s3| >= 4 {
      assert AllTags(s3) == AllTags(s[4..]);
    } else {
      assert AllTags(s3) == [] && AllTags(s[4..]) == [];
    }
    if |s2| >= 4 {
      assert AllTags(s2) == AllTags(s3);
    } else {
      assert AllTags(s2) == [] && AllTags(s3) == [];
    }
    if |s1| >= 4 {
      assert AllTags(s1) == AllTags(s2);
    } else {
      assert AllTags(s1) == [] && AllTags(s2) == [];
    }
  }

  // ---------------------------------------------------------------------------
  // Tags of a written record.

  datatype Field = Field(tag: string, value: string)

  /** A tag the pattern can match, and a value without a colon. */
  predicate WellFormedField(f: Field)
  {
    |f.tag| == 3 && IsLower(f.tag[0]) && IsLower(f.tag[1]) && IsLower(f.tag[2]) && Lacks(f.value, ':')
  }

  /** The record as `tag:value` pairs, each followed by a space or a
      newline. */
  function Render(fields: seq<Field>, seps: seq<char>): string
    requires |seps| == |fields|
  {
    if |fields| == 0 then ""
    else fields[0].tag + ":" + fields[0].value + [seps[0]] + Render(fields[1..], seps[1..])
  }

  function TagsOf(fields: seq<Field>): (r: seq<string>)
    ensures |r| == |fields| && forall k :: 0 <= k < |fields| ==> r[k] == fields[k].tag
  {
    if |fields| == 0 then [] else [fields[0].tag] + TagsOf(fields[1..])
  }

  /** Characters without a colon, followed by text whose first three
      characters are not colons, hold no match. */
  lemma {:induction false} TagsSkip(u: string, rest: string)
    requires Lacks(u, ':')
    requires forall j :: 0 <= j < 3 && j < |rest| ==> rest[j] != ':'
    ensures Tags(u + rest) == Tags(rest)
    decreases |u|
  {
    if |u| == 0 {
      assert u + rest == rest;
    } else {
      var s := u + rest;
      assert !TagAtStart(s) by {
        if |s| >= 4 {
          if |u| > 3 {
            assert s[3] == u[3];
          } else {
            assert s[3] == rest[3 - |u|];
          }
        }
      }
      if |s| >= 4 {
        assert s[1..] == u[1..] + rest;
      } else {
        assert |rest| < 4;
      }
      TagsSkip(u[1..], rest);
    }
  }

  /** Text that starts with a rendered field starts with a tag. */
  lemma RenderStart(fields: seq<Field>, seps: seq<char>)
    requires |seps| == |fields| && (forall k :: 0 <= k < |fields| ==> WellFormedField(fields[k]))
    ensures var s := Render(fields, seps);
      forall j :: 0 <= j < 3 && j < |s| ==> s[j] != ':'
  {
    if |fields| > 0 {
      assert WellFormedField(fields[0]);
    }
  }

  /** The pattern finds exactly the written tags, in order. */
  lemma {:induction false} TagsRender(fields: seq<Field>, seps: seq<char>)
    requires |seps| == |fields|
    requires forall k :: 0 <= k < |fields| ==> WellFormedField(fields[k])
    requires forall k :: 0 <= k < |seps| ==> seps[k] != ':'
    ensures Tags(Render(fields, seps)) == TagsOf(fields)
  {
    if |fields| > 0 {
      var f := fields[0];
      var rest := Render(fields[1..], seps[1..]);
      var s := Render(fields, seps);
      assert WellFormedField(f);
      assert s == f.tag + ":" + (f.value + [seps[0]] + rest);
      assert TagAtStart(s);
      assert s[..3] == f.tag;
      assert s[4..] == f.value + [seps[0]] + rest;
      RenderStart(fields[1..], seps[1..]);
      assert Lacks(f.value + [seps[0]], ':');
      TagsSkip(f.value + [seps[0]], rest);
      TagsRender(fields[1..], seps[1..]);
    }
  }

  // ---------------------------------------------------------------------------
  // The check.

  /** In sorted order, which the comparison relies on. */
  const Mandatory: seq<string> := ["byr", "ecl", "eyr", "hcl", "hgt", "iyr", "pid"]

  const Optional: string := "cid"

  lemma MandatorySorted()
    ensures SortedBy(Mandatory, LexLe)
  {
    LexIsTotalOrder();
    assert forall i :: 0 <= i < |Mandatory| - 1 ==> LexLe(Mandatory[i], Mandatory[i + 1]);
    forall i, j | 0 <= i < j < |Mandatory|
      ensures LexLe(Mandatory[i], Mandatory[j])
    {
      var k := i;
      while k < j
        invariant i <= k <= j
        invariant LexLe(Mandatory[i], Mandatory[k])
      {
        LexTransitive(Mandatory[i], Mandatory[k], Mandatory[k + 1]);
        k := k + 1;
      }
    }
  }

  /** `retain` without `cid`, then `sort`. */
  function Checked(tags: seq<string>): (r: seq<string>)
    ensures SortedBy(r, LexLe)
    ensures multiset(r) == multiset(Without(tags, Optional))
  {
    LexIsTotalOrder();
    Sort(Without(tags, Optional), LexLe)
  }

  predicate IsValid(record: string)
  {
    Checked(Tags(record)) == Mandatory
  }

  /** A record is valid exactly when each mandatory tag appears once and no
      tag other than `cid` appears at all: a missing, repeated or unknown tag
      makes it invalid, and `cid` may appear any number of times. */
  lemma ValidMeaning(record: string)
    ensures IsValid(record) <==>
      forall t :: t != Optional ==> multiset(Tags(record))[t] == (if t in Mandatory then 1 else 0)
  {
    var tags := Tags(record);
    CheckedMandatory(tags);
    MandatoryMultiset(Without(tags, Optional));
  }

  /** Sorting gives the mandatory list exactly when the tags are a
      permutation of it. */
  lemma CheckedMandatory(tags: seq<string>)
    ensures Checked(tags) == Mandatory <==> multiset(Without(tags, Optional)) == multiset(Mandatory)
  {
    LexIsTotalOrder();
    MandatorySorted();
    SortEqualsSorted(Without(tags, Optional), Mandatory, LexLe);
  }

  lemma MandatoryMultiset(rest: seq<string>)
    ensures multiset(rest) == multiset(Mandatory) <==>
      forall t :: multiset(rest)[t] == (if t in Mandatory then 1 else 0)
  {
    forall t
      ensures multiset(Mandatory)[t] == (if t in Mandatory then 1 else 0)
    {
      MandatoryCounts(t);
    }
  }

  /** Each mandatory tag is listed once. */
  lemma MandatoryCounts(t: string)
    ensures multiset(Mandatory)[t] == (if t in Mandatory then 1 else 0)
  {
    MandatoryDistinct();
    DistinctCounts(Mandatory);
    assert t in Mandatory <==> t in multiset(Mandatory);
  }

  lemma MandatoryDistinct()
    ensures Distinct(Mandatory)
  {
    forall i, j | 0 <= i < j < |Mandatory|
      ensures Mandatory[i] != Mandatory[j]
    {
      var a, b := Mandatory[i], Mandatory[j];
      assert a[0] != b[0] || a[1] != b[1] || a[2] != b[2];
    }
  }

  /** `cid` tags anywhere among the tags do not change the verdict. */
  lemma OptionalIgnored(before: seq<string>, after: seq<string>)
    ensures Checked(before + [Optional] + after) == Checked(before + after)
  {
    WithoutAppend(before + [Optional], after, Optional);
    WithoutAppend(before, [Optional], Optional);
    WithoutAppend(before, after, Optional);
    assert Without([Optional], Optional) == [];
    assert Without(before, Optional) + [] == Without(before, Optional);
  }

  /** A written record with a well-formed field for each mandatory tag, in
      any order, plus any number of `cid` fields, is valid; dropping a
      mandatory field makes it invalid. */
  lemma RenderedValid(fields: seq<Field>, seps: seq<char>)
    requires |seps| == |fields|
    requires forall k :: 0 <= k < |fields| ==> WellFormedField(fields[k])
    requires forall k :: 0 <= k < |seps| ==> seps[k] != ':'
    ensures IsValid(Render(fields, seps)) <==>
      multiset(Without(TagsOf(fields), Optional)) == multiset(Mandatory)
  {
    TagsRender(fields, seps);
    LexIsTotalOrder();
    MandatorySorted();
    SortEqualsSorted(Without(TagsOf(fields), Optional), Mandatory, LexLe);
  }

  // ---------------------------------------------------------------------------
  // `run`: the count of valid records.

  function CountValidRecords(records: seq<string>): nat
  {
    if |records| == 0 then 0
    else (if IsValid(records[0]) then 1 else 0) + CountValidRecords(records[1..])
  }

  function CountValid(contents: string): nat
  {
    CountValidRecords(Split(contents, "\n\n"))
  }

  function Verdicts(records: seq<string>): (r: seq<bool>)
    ensures |r| == |records| && forall i :: 0 <= i < |records| ==> r[i] == IsValid(records[i])
  {
    seq(|records|, i requires 0 <= i < |records| => IsValid(records[i]))
  }

  /** The answer is the number of valid records, at most the number of
      records. */
  lemma {:induction false} CountValidMeaning(records: seq<string>)
    ensures CountValidRecords(records) == Occurrences(Verdicts(records), true)
    ensures CountValidRecords(records) <= |records|
  {
    if |records| > 0 {
      CountValidMeaning(records[1..]);
      assert Verdicts(records)[1..] == Verdicts(records[1..]);
    }
    OccurrencesBounds(Verdicts(records), true);
  }
}
