/** Day 6: customs declarations. A group is one or more lines, one line
    per person, each listing the questions (characters) that person answered
    yes to; the groups are separated by blank lines. For each group the
    solver counts the questions whose total number of occurrences equals the
    number of lines, and sums those counts. */
module Customs {
  import opened Text
  import opened Sorting

  const Newline: byte := 10

  /** `count_newlines`: the number of newline bytes, plus one. */
  function CountNewlines(s: string): nat
  {
    Occurrences(Utf8(s), Newline) + 1
  }

  /** Only the newline character encodes to a newline byte: every byte of a
      wider character is 0x80 or above. */
  lemma NewlineByte(c: char)
    ensures Occurrences(EncodeChar(c), Newline) == if c == '\n' then 1 else 0
  {
    var bytes := EncodeChar(c);
    var v := c as int;
    if v >= 0x80 {
      assert forall k :: 0 <= k < |bytes| ==> bytes[k] >= 0x80;
      OccurrencesBounds(bytes, Newline);
    } else {
      assert bytes == [v as byte];
      assert bytes[1..] == [];
    }
  }

  /** So the byte count is the number of lines. */
  lemma {:induction false} CountNewlinesChars(s: string)
    ensures CountNewlines(s) == Occurrences(s, '\n') + 1
  {
    if |s| > 0 {
      CountNewlinesChars(s[1..]);
      NewlineByte(s[0]);
      OccurrencesAppend(EncodeChar(s[0]), Utf8(s[1..]), Newline);
    }
  }

  // ---------------------------------------------------------------------------
  // `count_group_answers`

  /** The loop over the distinct questions: how many of them occur `size`
      times among all answers. */
  function CountFull(unique: seq<char>, questions: seq<char>, size: nat): nat
  {
    if |unique| == 0 then 0
    else (if Occurrences(questions, unique[0]) == size then 1 else 0) + CountFull(unique[1..], questions, size)
  }

  /** The questions of `unique` that occur `size` times. */
  function Full(unique: seq<char>, questions: seq<char>, size: nat): set<char>
  {
    set q | q in unique && Occurrences(questions, q) == size
  }

  lemma {:induction false} CountFullSet(unique: seq<char>, questions: seq<char>, size: nat)
    requires Distinct(unique)
    ensures CountFull(unique, questions, size) == |Full(unique, questions, size)|
  {
    if |unique| > 0 {
      var rest := unique[1..];
      assert Distinct(rest) by {
        forall i, j | 0 <= i < j < |rest|
          ensures rest[i] != rest[j]
        {
          assert rest[i] == unique[i + 1] && rest[j] == unique[j + 1];
        }
      }
      CountFullSet(rest, questions, size);
      var here := Full(unique, questions, size);
      var later := Full(rest, questions, size);
      assert unique[0] !in rest by {
        forall j | 0 <= j < |rest|
          ensures rest[j] != unique[0]
        {
          assert rest[j] == unique[j + 1];
        }
      }
      assert forall q :: q in unique <==> q == unique[0] || q in rest;
      assert unique[0] !in later;
      if Occurrences(questions, unique[0]) == size {
        assert here == later + {unique[0]};
      } else {
        assert here == later;
      }
    }
  }

  /** `count_group_answers` as written: the group size is the number of
      lines, and the questions are sorted and deduplicated before counting. */
  function CountGroupAnswers(group: string): nat
  {
    var questions := Questions(group);
    CountFull(Dedup(questions), questions, CountNewlines(group))
  }

  /** Every answer of the group, newlines removed, in order. */
  function Questions(group: string): (r: seq<char>)
    ensures SortedBy(r, CharLe)
    ensures multiset(r) == multiset(Without(group, '\n'))
  {
    CharIsTotalOrder();
    Sort(Without(group, '\n'), CharLe)
  }

  /** Sorting and deduplicating the answers keeps each question and its
      count. */
  lemma SortedQuestions(group: string, q: char)
    ensures q in Dedup(Questions(group)) <==> q in group && q != '\n'
    ensures q != '\n' ==> Occurrences(Questions(group), q) == Occurrences(group, q)
  {
    var answers := Without(group, '\n');
    var questions := Questions(group);
    assert q in questions <==> q in multiset(questions);
    assert q in group <==> q in multiset(group);
    OccurrencesMultiset(questions, q);
    OccurrencesMultiset(group, q);
  }

  /** The questions answered on every line of a group: with no line
      repeating a character, those (other than the newline) that occur once
      more often than the newline does. */
  function Unanimous(group: string): set<char>
  {
    set q | q in group && q != '\n' && Occurrences(group, q) == Occurrences(group, '\n') + 1
  }

  /** The sort, dedup and count of the source find exactly those questions. */
  lemma GroupAnswersMeaning(group: string)
    ensures CountGroupAnswers(group) == |Unanimous(group)|
  {
    var size := CountNewlines(group);
    CountNewlinesChars(group);
    var questions := Questions(group);
    var unique := Dedup(questions);
    CharIsTotalOrder();
    DedupSortedDistinct(questions, CharLe);
    CountFullSet(unique, questions, size);
    forall q
      ensures q in Full(unique, questions, size) <==> q in Unanimous(group)
    {
      SortedQuestions(group, q);
    }
    assert Full(unique, questions, size) == Unanimous(group);
  }

  // ---------------------------------------------------------------------------
  // A group as its lines: the questions everyone answered.

  /** The questions answered on every line. */
  function Everywhere(lines: seq<string>): set<char>
    requires |lines| >= 1
  {
    set q | q in lines[0] && forall i :: 0 <= i < |lines| ==> q in lines[i]
  }

  /** A group as the puzzle writes it: each person's answers on a line of
      their own, no answer twice on a line. */
  predicate WellFormedGroup(lines: seq<string>)
  {
    && |lines| >= 1
    && forall i :: 0 <= i < |lines| ==> Lacks(lines[i], '\n') && Distinct(lines[i])
  }

  function SumOccurrences(lines: seq<string>, x: char): nat
  {
    if |lines| == 0 then 0 else Occurrences(lines[0], x) + SumOccurrences(lines[1..], x)
  }

  /** Number of lines holding `x`. */
  function Holding(lines: seq<string>, x: char): (r: nat)
    ensures r <= |lines|
    ensures r == |lines| <==> forall i :: 0 <= i < |lines| ==> x in lines[i]
  {
    if |lines| == 0 then 0
    else
      var rest := Holding(lines[1..], x);
      assert forall i :: 1 <= i < |lines| ==> lines[i] == lines[1..][i - 1];
      (if x in lines[0] then 1 else 0) + rest
  }

  lemma {:induction false} JoinOccurrences(lines: seq<string>, c: char, x: char)
    requires |lines| >= 1
    ensures Occurrences(Join(lines, [c]), x) == SumOccurrences(lines, x) + (if x == c then |lines| - 1 else 0)
  {
    if |lines| > 1 {
      JoinOccurrences(lines[1..], c, x);
      OccurrencesAppend(lines[0] + [c], Join(lines[1..], [c]), x);
      OccurrencesAppend(lines[0], [c], x);
      assert Occurrences([c], x) == if x == c then 1 else 0 by {
        assert [c][1..] == [];
      }
    }
  }

  /** Lines without the newline hold none; lines without repeats hold each
      character at most once. */
  lemma {:induction false} SumOccurrencesHolding(lines: seq<string>, x: char)
    requires WellFormedGroup(lines) || |lines| == 0
    ensures SumOccurrences(lines, '\n') == 0
    ensures SumOccurrences(lines, x) == Holding(lines, x)
  {
    if |lines| > 0 {
      var line := lines[0];
      if |lines| > 1 {
        assert WellFormedGroup(lines[1..]) by {
          assert forall i :: 1 <= i < |lines| ==> lines[i] == lines[1..][i - 1];
        }
      }
      SumOccurrencesHolding(lines[1..], x);
      OccurrencesBounds(line, '\n');
      OccurrencesBounds(line, x);
      OccurrencesMultiset(line, x);
      DistinctCounts(line);
      assert multiset(line)[x] <= 1;
    }
  }

  /** For a well-formed group, the count is the number of questions every
      person answered. */
  lemma GroupOfLines(lines: seq<string>)
    requires WellFormedGroup(lines)
    ensures CountGroupAnswers(Join(lines, "\n")) == |Everywhere(lines)|
  {
    var group := Join(lines, "\n");
    GroupAnswersMeaning(group);
    JoinOccurrences(lines, '\n', '\n');
    SumOccurrencesHolding(lines, '\n');
    forall q
      ensures q in Unanimous(group) <==> q in Everywhere(lines)
    {
      JoinOccurrences(lines, '\n', q);
      SumOccurrencesHolding(lines, q);
      OccurrencesBounds(group, q);
    }
    assert Unanimous(group) == Everywhere(lines);
  }

  /** Each answer counts at most once, so the count is at most the number of
      different questions in the group. */
  lemma GroupAnswersBound(group: string)
    ensures CountGroupAnswers(group) <= |set q | q in group && q != '\n'|
  {
    GroupAnswersMeaning(group);
    SubsetSize(Unanimous(group), set q | q in group && q != '\n');
  }

  /** A group of one person counts every answer on their line. */
  lemma OnePerson(line: string)
    requires Lacks(line, '\n') && Distinct(line)
    ensures CountGroupAnswers(line) == |line|
  {
    GroupOfLines([line]);
    assert Everywhere([line]) == set q | q in line;
    DistinctCardinality(line);
  }

  /** With a repeated answer the single line counts nothing: the count is
      by occurrences, not by people. */
  lemma RepeatedAnswer(line: string, c: char)
    requires line == [c, c] && c != '\n'
    ensures CountGroupAnswers(line) == 0
  {
    GroupAnswersMeaning(line);
    assert line[1..] == [c] && line[1..][1..] == [];
    assert Occurrences([c], c) == 1 && Occurrences([c], '\n') == 0;
    assert Occurrences(line, c) == 2 && Occurrences(line, '\n') == 0;
    assert Unanimous(line) == {};
  }

  // ---------------------------------------------------------------------------
  // The last group of a file ends with the file's newline.

  lemma {:induction false} JoinEmptyLast(lines: seq<string>, sep: string)
    requires |lines| >= 1
    ensures Join(lines + [""], sep) == Join(lines, sep) + sep
  {
    if |lines| > 1 {
      JoinEmptyLast(lines[1..], sep);
      assert (lines + [""])[1..] == lines[1..] + [""];
    }
  }

  /** As written, a group followed by a newline is one person larger, and
      that person answered nothing: the count drops to 0. */
  lemma TrailingNewlineAsWritten(lines: seq<string>)
    requires WellFormedGroup(lines)
    ensures CountGroupAnswers(Join(lines, "\n") + "\n") == 0
  {
    var longer := lines + [""];
    JoinEmptyLast(lines, "\n");
    assert WellFormedGroup(longer) by {
      assert forall i :: 0 <= i < |lines| ==> longer[i] == lines[i];
    }
    GroupOfLines(longer);
    assert Everywhere(longer) == {} by {
      assert longer[|lines|] == "";
    }
  }

  /** The count with one trailing newline dropped first. */
  function GroupAnswers(group: string): nat
  {
    if |group| > 0 && group[|group| - 1] == '\n' then CountGroupAnswers(group[..|group| - 1])
    else CountGroupAnswers(group)
  }

  /** With the newline dropped, a group counts the questions everyone
      answered whether or not a newline follows it. */
  lemma GroupAnswersLines(lines: seq<string>)
    requires WellFormedGroup(lines) && lines[|lines| - 1] != ""
    ensures GroupAnswers(Join(lines, "\n")) == |Everywhere(lines)|
    ensures GroupAnswers(Join(lines, "\n") + "\n") == |Everywhere(lines)|
  {
    var group := Join(lines, "\n");
    GroupOfLines(lines);
    JoinLast(lines, "\n");
    assert (group + "\n")[..|group|] == group;
  }

  /** A joined group ends with its last line. */
  lemma {:induction false} JoinLast(lines: seq<string>, sep: string)
    requires |lines| >= 1 && lines[|lines| - 1] != ""
    ensures var joined := Join(lines, sep);
      |joined| > 0 && joined[|joined| - 1] == lines[|lines| - 1][|lines[|lines| - 1]| - 1]
  {
    if |lines| > 1 {
      JoinLast(lines[1..], sep);
    }
  }

  /** "b" followed by the file's newline. */
  lemma ExampleTrailingNewline(group: string)
    requires group == "b\n"
    ensures CountGroupAnswers(group) == 0
    ensures CountGroupAnswers(group[..1]) == 1
    ensures GroupAnswers(group) == 1
  {
    assert group == Join(["b"], "\n") + "\n";
    TrailingNewlineAsWritten(["b"]);
    OnePerson("b");
  }

  // ---------------------------------------------------------------------------
  // `run`: the sum over the groups separated by blank lines.

  /** The loop of `run` as written: each group counted by
      `count_group_answers`. */
  function SumGroups(groups: seq<string>): nat
  {
    if |groups| == 0 then 0 else CountGroupAnswers(groups[0]) + SumGroups(groups[1..])
  }

  function TotalAnswers(contents: string): nat
  {
    SumGroups(Split(contents, "\n\n"))
  }

  /** The same loop with each group's trailing newline dropped first. */
  function SumGroupsCorrected(groups: seq<string>): nat
  {
    if |groups| == 0 then 0 else GroupAnswers(groups[0]) + SumGroupsCorrected(groups[1..])
  }

  function TotalAnswersCorrected(contents: string): nat
  {
    SumGroupsCorrected(Split(contents, "\n\n"))
  }

  /** Groups written with blank lines between them are read back one by one,
      so each total is the sum of its counts over those groups. */
  lemma TotalOfGroups(groups: seq<string>)
    requires |groups| >= 1
    requires forall k :: 0 <= k < |groups| ==> EndsBeforeSeparator(groups[k], "\n\n")
    requires !Contains(groups[|groups| - 1], "\n\n")
    ensures TotalAnswers(Join(groups, "\n\n")) == SumGroups(groups)
    ensures TotalAnswersCorrected(Join(groups, "\n\n")) == SumGroupsCorrected(groups)
  {
    SplitJoin(groups, "\n\n");
  }

  /** On groups that do not end with a newline, the total as written and
      the corrected total are equal. */
  lemma {:induction false} SumGroupsAgree(groups: seq<string>)
    requires forall k :: 0 <= k < |groups| ==> |groups[k]| == 0 || groups[k][|groups[k]| - 1] != '\n'
    ensures SumGroups(groups) == SumGroupsCorrected(groups)
  {
    if |groups| > 0 {
      var tail := groups[1..];
      assert forall k :: 0 <= k < |tail| ==> tail[k] == groups[k + 1];
      SumGroupsAgree(tail);
      NoTrailingNewline(groups[0]);
    }
  }

  lemma NoTrailingNewline(group: string)
    requires |group| == 0 || group[|group| - 1] != '\n'
    ensures GroupAnswers(group) == CountGroupAnswers(group)
  {
  }

  /** A file holding the group "b" and its final newline totals 0 as written
      and 1 when corrected. */
  lemma RunTrailingNewline(contents: string)
    requires contents == "b\n"
    ensures TotalAnswers(contents) == 0
    ensures TotalAnswersCorrected(contents) == 1
  {
    assert contents[0] == 'b';
    assert FindFrom(contents, "\n\n", 1) == None;
    assert contents[0..2] != "\n\n";
    assert FindFrom(contents, "\n\n", 0) == None;
    assert Split(contents, "\n\n") == [contents];
    ExampleTrailingNewline(contents);
    OneGroup(contents);
  }

  lemma OneGroup(group: string)
    ensures SumGroups([group]) == CountGroupAnswers(group)
    ensures SumGroupsCorrected([group]) == GroupAnswers(group)
  {
    assert [group][1..] == [];
  }

  // ---------------------------------------------------------------------------
  // The examples of src/day_6.rs.

  lemma ExampleAllOfOne(group: string)
    requires group == "abc"
    ensures CountGroupAnswers(group) == 3
  {
    OnePerson(group);
  }

  lemma ExampleNoneShared(group: string)
    requires group == "a\nb\nc"
    ensures CountGroupAnswers(group) == 0
  {
    var lines := ["a", "b", "c"];
    JoinThree("a", "b", "c", "\n");
    assert Join(lines, "\n") == group;
    NoneSharedLines(lines);
  }

  lemma NoneSharedLines(lines: seq<string>)
    requires lines == ["a", "b", "c"]
    ensures CountGroupAnswers(Join(lines, "\n")) == 0
  {
    assert WellFormedGroup(lines) && Everywhere(lines) == {} by {
      assert lines[0] == "a" && lines[1] == "b";
    }
    GroupOfLines(lines);
  }

  lemma ExampleOneShared(group: string)
    requires group == "ab\nac"
    ensures CountGroupAnswers(group) == 1
  {
    var lines := ["ab", "ac"];
    JoinTwo("ab", "ac", "\n");
    assert Join(lines, "\n") == group;
    OneSharedLines(lines);
  }

  lemma OneSharedLines(lines: seq<string>)
    requires lines == ["ab", "ac"]
    ensures CountGroupAnswers(Join(lines, "\n")) == 1
  {
    assert WellFormedGroup(lines) && Everywhere(lines) == {'a'} by {
      assert lines[0] == "ab" && lines[1] == "ac";
    }
    GroupOfLines(lines);
  }

  lemma ExampleAllShared(group: string)
    requires group == "a\na\na\na"
    ensures CountGroupAnswers(group) == 1
  {
    var lines := ["a", "a", "a", "a"];
    assert Join(lines, "\n") == group by {
      assert lines[1..] == ["a", "a", "a"];
      JoinThree("a", "a", "a", "\n");
    }
    AllSharedLines(lines);
  }

  lemma AllSharedLines(lines: seq<string>)
    requires lines == ["a", "a", "a", "a"]
    ensures CountGroupAnswers(Join(lines, "\n")) == 1
  {
    assert WellFormedGroup(lines) && Everywhere(lines) == {'a'} by {
      assert forall i :: 0 <= i < |lines| ==> lines[i] == "a";
    }
    GroupOfLines(lines);
  }

  lemma ExampleSingle(group: string)
    requires group == "b"
    ensures CountGroupAnswers(group) == 1
  {
    OnePerson(group);
  }
}
