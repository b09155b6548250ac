# Advent of Code 2020 solvers, modelled in Dafny

This project models the puzzle kernels of a Rust Advent of Code 2020 repository. There are two crates. `src/` is the older one: days 1, 2, 5, 6, 7 and 8. `advent/src/` is the newer one: days 2, 3 and 4. Both crates share the command line parser `Config::new`. Each day is one Dafny module:

- `Expense` (day 1): pairs and triples of adjacent entries with a given sum.
- `Passwords` (day 2): both password policies, the byte-position rule and the occurrence-count rule.
- `Toboggan` (day 3): walking a wrapping tree map along a slope, and the running total of the tree counts of five slopes.
- `Passports` (day 4): the field tags of a record, and the check against the mandatory tags.
- `Boarding` (day 5): binary space partitioning of boarding passes, seat IDs, and the first gap in the sorted IDs.
- `Customs` (day 6): questions answered by everyone in a group.
- `Bags` (day 7): the bag rules, the search for every colour that can hold a colour, and the count of bags inside a colour.
- `Handheld` (day 8): the instruction parser and the interpreter that stops when an instruction is about to run twice.
- `Cli`: `Config::new`.

Three modules hold shared definitions:

- `Text`: `Option`, split and join, occurrence counts, and the UTF-8 length of a string.
- `Numbers`: Rust's `str::parse` for `i32` and `usize`, with decimal printing and the round trips between them.
- `Sorting`: an insertion sort over a total order, dedup, and the fact that a sorted permutation is unique.

Every place where the source panics becomes an explicit error value. Examples are an `unwrap` on a failed parse, an index out of bounds, a `usize` subtraction below zero, and `last()` of an empty vector. The error value is `None`, `Panic`, `OutOfBounds` or `BadArgument`, so each contract covers the failing inputs as well as the good ones. Strings are `seq<char>`. Where the source counts or indexes bytes (`len()`, `as_bytes()`, `&s[..7]`), the model measures the UTF-8 encoding.

Six behaviours of the code are easy to overlook. The model keeps each of them:

- A bag rule line that does not match `^(.*) bags contain (.*)\.$` yields `Rule::default()`, a rule with an empty colour and no contents, and `parse_rules` keeps it in the list (`Bags.ParseRule`).
- The day 1 search only looks at adjacent entries: consecutive windows of two or three (`Expense.OnlyAdjacent`). It does not try every pair or triple.
- The day 3 column does not wrap modulo the width. The width is subtracted once, which is the same thing only for slopes no wider than the map (`Toboggan.ColumnWraps`).
- The day 4 solver compares tag lists only. It does no per-field validation.
- The missing seat is one past the end of the first run of consecutive IDs. The code does not look for a gap of exactly one.
- The interpreter does not always end by detecting a loop. A jump out of the program panics (`OutOfBounds`).

## Model

| member | source | states |
|---|---|---|
| Cli.NewConfig | src/lib.rs:15-29 | fewer than three arguments give the "Day and filename arguments required" error, more than three give "Too many arguments", and exactly three give a config whose file name is the third argument and whose day is the `i32` parse of the second argument, or 1 when that parse fails; advent/src/lib.rs:7-21 is a copy of the same function |
| Cli.NewConfigReadsBack | src/lib.rs:23-28 | a day argument that is a decimal numeral with an optional sign, of value within `i32`, gives a config with that value and the file name unchanged, whatever the program name |
| Cli.NewConfigShowDay | src/lib.rs:23-28 | any `i32` day printed in decimal is read back unchanged |
| Cli.NewConfigDefault | src/lib.rs:23-24 | a day argument that is not a signed decimal numeral, or whose value lies outside `i32`, falls back to day 1 |
| Expense.AllSome | src/day_1.rs:9-10 | the parsed window exists exactly when every entry in it parses, and then holds those values in order |
| Expense.WindowPanics | src/day_1.rs:9-10 | a window with an entry that does not parse means some entry of the input does not parse |
| Expense.SearchFrom | src/day_1.rs:8-15 | a window it returns has the requested width and the desired sum; a panic points at an entry that does not parse; and when the scan finds nothing although a window fits, every entry from the start on parses |
| Expense.FindSum2 | src/day_1.rs:7-16 | fewer than two entries finds nothing; a panic means some entry does not parse; and "nothing found" on two or more entries means every entry parses |
| Expense.FindSum2Finds | src/day_1.rs:7-16 | when the entries up to the first adjacent pair with the desired sum all parse, that pair is returned, even if a later entry does not parse |
| Expense.FindSum2Panics | src/day_1.rs:8-10 | the converse: when the first entry that does not parse comes before any adjacent pair with the desired sum, the unwrap panics |
| Expense.FindSum3 | src/day_1.rs:18-28 | fewer than three entries finds nothing; a panic means some entry does not parse; and "nothing found" on three or more entries means every entry parses |
| Expense.FindSum3Finds | src/day_1.rs:18-28 | when the entries up to the first adjacent triple with the desired sum all parse, that triple is returned, even if a later entry does not parse |
| Expense.FindSum3Panics | src/day_1.rs:19-22 | the converse: when the first entry that does not parse comes before any adjacent triple with the desired sum, the unwrap panics |
| Expense.FirstWindow | src/day_1.rs:8-13 | the reference search: the index it returns starts a window with the desired sum, and no earlier window has that sum |
| Expense.SearchFromMeaning | src/day_1.rs:8-15 | when every entry parses, the scan returns exactly the first window of the reference search, or nothing found when there is none |
| Expense.SearchFromStep | src/day_1.rs:11-13 | a parsed window with the desired sum is returned at once; otherwise the scan moves on by one entry |
| Expense.SearchFromFinds | src/day_1.rs:8-13 | when the windows from the start up to one window all parse and miss, and that window parses and has the desired sum, the scan returns it, whatever the later entries hold |
| Expense.SearchFromPanics | src/day_1.rs:8-13 | when the entries parse up to one that does not, and no window lying before it has the desired sum, the scan reaches a window holding that entry and panics |
| Expense.FindSum2Meaning | src/day_1.rs:7-16 | when every entry parses, the result is the first adjacent pair with the desired sum, or none |
| Expense.FindSum3Meaning | src/day_1.rs:18-28 | when every entry parses, the result is the first adjacent triple with the desired sum, or none |
| Expense.OnlyAdjacent | src/day_1.rs:8 | a pair that sums to the target but is not adjacent (1 and 2 in 1, 5, 2) is not found |
| Expense.ExampleBadEntry | src/day_1.rs:8-10 | on 1, x, 5 the first pair holds "x", so `find_sum_2` panics rather than reporting nothing |
| Expense.ExampleBadEntryAfterMatch | src/day_1.rs:8-13 | on 3, 4, 1, 6, x with sum 7 the answer is (3, 4): the scan stops before it reaches "x" |
| Expense.ExamplePair | src/day_1.rs:74-83 | on 1, 2, 3, 4 the pair summing to 7 is (3, 4), and nothing sums to 11 |
| Expense.ExampleTriple | src/day_1.rs:85-94 | on 1, 2, 3, 4 the triple summing to 6 is (1, 2, 3), and nothing sums to 11 |
| Passwords.ParseLine | src/day_2.rs:13-23 | a parsed line has both numbers in `usize` range and a password without spaces |
| Passwords.ParseFormatLine | src/day_2.rs:13-23 | every policy written as `low-high letter: password` parses back to itself; advent/src/day_2.rs:18-28 reads lines the same way |
| Passwords.PositionsAsWrittenPanics | src/day_2.rs:27-32 | with the second position one past the end of the password, the check as written panics; the corrected check rejects the password |
| Passwords.PositionsAsWrittenExample | src/day_2.rs:25-32 | the line "1-4 a: abc" parses and then panics in the check as written |
| Passwords.PositionsAgree | src/day_2.rs:27-39 | on every other policy, the check as written and the corrected check agree |
| Passwords.PositionsMeaning | src/day_2.rs:25-39 | with 1 <= low <= high, the corrected check never panics, and it accepts exactly when the password reaches the second position and exactly one of the two 1-based bytes is the letter; on ASCII passwords this is the same statement about characters |
| Passwords.OccursMeaning | advent/src/day_2.rs:30-31 | an empty range accepts nothing; a range from 1 accepts only passwords that contain the letter; a range from 0 accepts every password without the letter |
| Passwords.CountValidMeaning | src/day_2.rs:42-56 | `Passwords.CountValid`, the count of `run`, exists exactly when no line panics, and then it is the number of accepted lines, at most the number of lines; the same holds for the occurrence rule of advent/src/day_2.rs:16-34 |
| Passwords.PositionCountsAgree | src/day_2.rs:42-56 | the count `run` prints, with the guard as written, equals the count with the corrected guard on every input where no password is exactly one byte shorter than its second position |
| Passwords.RunShortPasswordPanics | src/day_2.rs:42-56 | an input holding "1-4 a: abc" makes `run` panic, while the corrected guard counts that line as invalid |
| Passwords.ExampleLine | src/day_2.rs:11-40 | `Passwords.IsPasswordValid` (`is_password_valid`) on a written ASCII line with 1 <= low <= high is the position check as written: a long enough password is accepted when exactly one position holds the letter, and a password shorter by two or more is rejected |
| Passwords.ExampleTooShort | src/day_2.rs:62-66 | "1-10 x: xyz" is rejected |
| Passwords.ExampleNoLetter | src/day_2.rs:68-72 | "1-5 x: abcdef" is rejected |
| Passwords.ExampleBoth | src/day_2.rs:74-78 | "1-5 a: abcdaf" is rejected, because the letter is at both positions |
| Passwords.ExampleFirst | src/day_2.rs:80-84 | "1-5 a: abcdef" is accepted |
| Passwords.ExampleSecond | src/day_2.rs:86-90 | "1-5 e: abcdef" is accepted |
| Toboggan.NewPosition | advent/src/day_3.rs:15-17 | a new position starts at the top-left corner and keeps its slope |
| Toboggan.Slide | advent/src/day_3.rs:19-22 | one slide moves right and down by the slope and keeps the slope |
| Toboggan.SlideTimesFromCorner | advent/src/day_3.rs:15-22 | after k slides from the corner the position is (k * right, k * down) |
| Toboggan.ReadMap | advent/src/day_3.rs:28-45 | an empty input gives no map (reading the width panics); otherwise the map holds the lines' characters, row by row |
| Toboggan.ColumnWraps | advent/src/day_3.rs:56-61 | when the step right is at most the width, the column after k slides is k * right modulo the width |
| Toboggan.VisitsExact | advent/src/day_3.rs:52 | the k-th slide lands inside the map exactly when k is below the number of visited rows |
| Toboggan.CountTrees | advent/src/day_3.rs:47-65 | for a positive step down, there is a count exactly when the map has rows and every visited square lies inside its row, and the count is the number of trees among the visited squares |
| Toboggan.TreesAtMostVisits | advent/src/day_3.rs:52-55 | at most one tree is counted per visited row |
| Toboggan.ProductZero | advent/src/day_3.rs:80-87 | the product of the counts is 0 exactly when some count is 0 |
| Toboggan.FoldAsWrittenAgrees | advent/src/day_3.rs:80-87 | while no count is 0, the fold as written is the product |
| Toboggan.FoldAsWrittenRestarts | advent/src/day_3.rs:83-87 | counts 2, 0, 3 give 3 in the fold as written, although their product is 0 |
| Toboggan.FoldAsWrittenZero | advent/src/day_3.rs:80-87 | the fold as written ends at 0 exactly when its last count is 0 (or it has no counts and starts from 0) |
| Toboggan.SlopeCounts | advent/src/day_3.rs:72-82 | the five walks (1, 1), (3, 1), (5, 1), (7, 1), (1, 2) give their tree counts in order, and there are counts exactly when the map has rows and every walk stays inside its rows |
| Toboggan.FoldCounts | advent/src/day_3.rs:80-87 | the running total of the loop is the fold as written; it is the product when no count is 0, and it is 0 exactly when the last count is 0 |
| Toboggan.TreeTotal | advent/src/day_3.rs:67-89 | the answer `run` prints exists exactly when the map has rows and all five walks stay inside their rows; it is the fold as written of the five tree counts, equal to their product when no slope has zero trees, and 0 exactly when the slope (1, 2) has no trees |
| Toboggan.TreeProduct | advent/src/day_3.rs:67-89 | the corrected answer: under the same condition, the product of the five slopes' tree counts, which is 0 exactly when some slope has no trees |
| Toboggan.ExamplePosition | advent/src/day_3.rs:123-141 | a new (3, 1) position is at the origin, and one slide takes it to (3, 1) |
| Toboggan.ExampleMap | advent/src/day_3.rs:105-121 | the four-line example reads into the expected grid |
| Toboggan.ExampleTwoTrees | advent/src/day_3.rs:143-153 | the four-row striped map has two trees on slope (3, 1) |
| Toboggan.ExampleThreeTrees | advent/src/day_3.rs:155-168 | the seven-row striped map has three trees on slope (3, 1) |
| Passports.Tags | advent/src/day_4.rs:9 | every capture of the tag pattern is three lower-case letters |
| Passports.TagsEveryPosition | advent/src/day_4.rs:26-28 | matches cannot overlap, so resuming the search after each match captures the tag at every position where the pattern matches, from left to right |
| Passports.AllTagsPositions | advent/src/day_4.rs:9 | a tag is captured exactly when three lower-case letters followed by a colon spell it at some position of the record |
| Passports.TagsRender | advent/src/day_4.rs:9-28 | in a record written as `tag:value` fields, the pattern finds exactly the written tags, in order |
| Passports.Checked | advent/src/day_4.rs:30-33 | the checked list is sorted and is a permutation of the tags without `cid` |
| Passports.MandatorySorted | advent/src/day_4.rs:11-19 | the mandatory list is in sorted order, which the comparison with a sorted list relies on |
| Passports.CheckedMandatory | advent/src/day_4.rs:30-35 | the checked tags equal the mandatory list exactly when the tags without `cid` are a permutation of it |
| Passports.ValidMeaning | advent/src/day_4.rs:26-37 | a record passes `Passports.IsValid` (the filter of `run`) exactly when each mandatory tag appears once and no tag other than `cid` appears at all |
| Passports.OptionalIgnored | advent/src/day_4.rs:31 | a `cid` tag anywhere in the list does not change the checked list |
| Passports.RenderedValid | advent/src/day_4.rs:26-35 | a written record is valid exactly when its non-`cid` tags are a permutation of the mandatory ones |
| Passports.CountValidMeaning | advent/src/day_4.rs:21-38 | the answer `Passports.CountValid` gives for the records that `split("\n\n")` yields is the number of valid records, at most the number of records |
| Boarding.SeatIdInverse | src/day_5.rs:35-37 | for a column below 8, the row and column are the quotient and remainder by 8 of `Boarding.SeatId` (`generate_seat_id`), the seat ID quotient and remainder by 8 |
| Boarding.SeatIdInjective | src/day_5.rs:35-37 | two seats with columns below 8 have the same ID exactly when they are the same seat |
| Boarding.SeatIdRange | src/day_5.rs:35-37 | a seat in rows 0-127 and columns 0-7 has an ID in 0-1023 |
| Boarding.Bits | src/day_5.rs:42-49 | the code read as a binary number, with the lower-half letter as 0, is below 2 to the power of its length |
| Boarding.HalveBinary | src/day_5.rs:41-50 | `Boarding.Halve`, the halving loop of `find_seat`: halving a range of 2^n seats by a code of at most n letters leaves its lower bound at the start plus the code's binary value shifted into place |
| Boarding.FindSeat | src/day_5.rs:39-67 | there is no seat exactly when no prefix of the pass is 7 bytes long, so that slicing at byte 7 panics |
| Boarding.FindSeatDecodes | src/day_5.rs:39-67 | an ASCII pass of ten letters gives the row of its first seven letters and the column of its last three, read as binary numbers, with the row below 128 and the column below 8 |
| Boarding.FindSeatRow | src/day_5.rs:40-50 | every decoded row lies in 0-127 |
| Boarding.BitsOfCode | src/day_5.rs:42-49 | a number written as a code of the given width reads back as that number |
| Boarding.CodeOfBits | src/day_5.rs:42-49 | a code of two letters, written back from its value, is the same code |
| Boarding.FindSeatCode | src/day_5.rs:39-67 | every seat in rows 0-127 and columns 0-7 has a well-formed pass that decodes to it |
| Boarding.SeatCodeOf | src/day_5.rs:39-67 | every well-formed pass decodes to a seat whose pass is that same pass |
| Boarding.FindSeatByLoops | src/day_5.rs:39-67 | the two halving loops over the characters compute the same seat as the reference decoding, or panic on the same passes |
| Boarding.FirstGap | src/day_5.rs:81-87 | the scan stops at the first index that does not follow on from the one before it, or at the end; all earlier IDs are consecutive |
| Boarding.SortIds | src/day_5.rs:80 | the sorted IDs are in order and are a permutation of the input |
| Boarding.DecodeAll | src/day_5.rs:74-77 | there are IDs exactly when every pass decodes, one ID per pass, in order |
| Boarding.ConsecutiveRun | src/day_5.rs:81-87 | before the stop, every ID is the first ID plus its index |
| Boarding.GapMeaning | src/day_5.rs:81-90 | the reported seat follows an ID in the list, every ID from the smallest up to it is present, and with distinct IDs the seat itself is missing |
| Boarding.FindMySeatMeaning | src/day_5.rs:69-91 | there is a report exactly when there are passes and all of them decode; it gives the largest ID, and a seat one past a present ID with every value from the lowest ID up to it present; with distinct IDs that seat is the first missing ID above the lowest |
| Boarding.MySeatMeaning | src/day_5.rs:80-90 | there is a report exactly when there is at least one ID (otherwise `last().unwrap()` panics), and the report fits the IDs |
| Boarding.HighestFits | src/day_5.rs:89 | the last sorted ID is in the list and no ID is larger |
| Boarding.MineFollowsRun | src/day_5.rs:81-90 | the reported seat is one past an ID in the list, and every value from any listed ID up to the seat is listed too |
| Boarding.MineAbsent | src/day_5.rs:81-90 | with distinct IDs, the reported seat is not in the list |
| Boarding.ExampleRow44 | src/day_5.rs:98-122 | "FBFBBFFRLR" is row 44, column 5, ID 357 |
| Boarding.ExampleRow70 | src/day_5.rs:98-122 | "BFFFBBFRRR" is row 70, column 7, ID 567 |
| Boarding.ExampleRow14 | src/day_5.rs:98-122 | "FFFBBBFRRR" is row 14, column 7, ID 119 |
| Boarding.ExampleRow102 | src/day_5.rs:98-122 | "BBFFBBFRLL" is row 102, column 4, ID 820 |
| Customs.CountNewlinesChars | src/day_6.rs:6-8 | the newline bytes of the UTF-8 encoding are the newline characters, so the result is the number of newlines plus one |
| Customs.CountFullSet | src/day_6.rs:17-25 | over distinct questions, the loop counts exactly the questions that occur as often as the group has lines |
| Customs.Questions | src/day_6.rs:14-16 | the questions are sorted and are a permutation of the group without its newlines |
| Customs.SortedQuestions | src/day_6.rs:14-21 | sorting and deduplicating keeps exactly the questions of the group, each with its number of occurrences |
| Customs.GroupAnswersMeaning | src/day_6.rs:10-28 | `Customs.CountGroupAnswers` (`count_group_answers`) is the number of questions that occur once more often than the newline does |
| Customs.GroupOfLines | src/day_6.rs:10-28 | for a group written one line per person, with no answer twice on a line, the count is the number of questions answered on every line |
| Customs.GroupAnswersBound | src/day_6.rs:10-28 | the count is at most the number of distinct questions in the group |
| Customs.OnePerson | src/day_6.rs:10-28 | a one-line group without repeats counts every answer on the line |
| Customs.RepeatedAnswer | src/day_6.rs:17-25 | a one-line group that repeats an answer ("aa") counts 0, because the letter occurs twice but the group has one line |
| Customs.TrailingNewlineAsWritten | src/day_6.rs:6-11 | a group followed by a newline counts 0, because the newline adds a phantom empty line |
| Customs.GroupAnswersLines | src/day_6.rs:10-28 | with one trailing newline dropped, a group counts the questions answered on every line, whether or not a newline follows it |
| Customs.ExampleTrailingNewline | src/day_6.rs:30-37 | the group "b" followed by a newline counts 0 as written and 1 when corrected |
| Customs.TotalOfGroups | src/day_6.rs:30-37 | groups written with blank lines between them are read back one by one, so the total `run` prints, `Customs.TotalAnswers`, is the sum of `count_group_answers` over the groups, and the corrected total is the sum of the corrected counts |
| Customs.SumGroupsAgree | src/day_6.rs:30-37 | when no group ends with a newline, the total as written equals the corrected total |
| Customs.RunTrailingNewline | src/day_6.rs:30-37 | a file holding the group "b" and its final newline totals 0 as written and 1 when corrected |
| Customs.ExampleAllOfOne | src/day_6.rs:48-60 | the group "abc" counts 3 |
| Customs.ExampleNoneShared | src/day_6.rs:48-60 | the group "a", "b", "c" counts 0 |
| Customs.ExampleOneShared | src/day_6.rs:48-60 | the group "ab", "ac" counts 1 |
| Customs.ExampleAllShared | src/day_6.rs:48-60 | four lines of "a" count 1 |
| Customs.ExampleSingle | src/day_6.rs:48-60 | the group "b" counts 1 |
| Bags.MatchOuter | src/day_7.rs:39-48 | a match splits the line into the colour, the phrase " bags contain " and a body ending in '.'; the greedy first group leaves no later phrase in the body; no match means the line has no such shape |
| Bags.MatchOuterUnique | src/day_7.rs:39-48 | a line of that shape, whose body holds no further phrase, matches with exactly that colour and body |
| Bags.LeadingDigits | src/day_7.rs:40 | the digits at the start of an item end at the first character that is not a digit |
| Bags.CountOf | src/day_7.rs:58 | a count that fits an `i32` is read exactly; a longer one falls back to 0 |
| Bags.MatchInner | src/day_7.rs:40-59 | a matched item has a count between 0 and the `i32` maximum |
| Bags.MatchInnerShape | src/day_7.rs:40-59 | an item matches the inner pattern exactly when it is a digit run, a space, a colour without a line break and " bag" or " bags"; the captures are then those digits' count and that colour, and every other item, such as "no other bags", is dropped |
| Bags.ParseRule | src/day_7.rs:38-70 | a line without the outer shape becomes the default rule; a line `<colour> bags contain <body>.` whose body holds no further phrase becomes the rule of that colour whose contents are the items of the body, split at ", ", that match the inner pattern; no count is negative |
| Bags.NoOtherBags | src/day_7.rs:50-61 | the body "no other bags" is one item that the inner pattern does not match, so such a rule has no contents |
| Bags.MatchFormatContents | src/day_7.rs:40-59 | an item written as `count colour bag(s)` is read back as the same contents |
| Bags.ParseFormatRule | src/day_7.rs:38-70 | every rule written in the puzzle's sentence form parses back to itself |
| Bags.ParseFormatBody | src/day_7.rs:50-62 | the body split on ", " gives back every written item, in order |
| Bags.ParseRules | src/day_7.rs:72-84 | there are never more rules than lines |
| Bags.ParseRulesAppend | src/day_7.rs:75-79 | the lines are parsed one at a time, so the rules of joined lines are the joined rules |
| Bags.ParseRulesSingle | src/day_7.rs:76-78 | a line gives its rule when it is longer than one byte, and nothing otherwise |
| Bags.ParseRulesAscii | src/day_7.rs:76-78 | on ASCII lines, "longer than one byte" is "longer than one character" |
| Bags.ContainmentsPairs | src/day_7.rs:89-90 | the visited pairs are exactly the (rule colour, contents) pairs of the rules |
| Bags.SearchSound | src/day_7.rs:86-104 | every colour the search returns can hold the searched colour through a chain of rules |
| Bags.SearchComplete | src/day_7.rs:86-104 | when the search ends, every colour that can hold the searched colour is returned |
| Bags.SearchFindsAncestors | src/day_7.rs:86-104 | `Bags.SearchForBag` (`search_for_bag`) is this search over the rules' (holder, contents) pairs; when the search ends, its set of colours is exactly the set of colours that can hold the searched colour |
| Bags.SearchDefined | src/day_7.rs:86-104 | the search ends within the fuel exactly when every chain of holders above the colour is shorter than the fuel |
| Bags.SearchFuel | src/day_7.rs:86-104 | more fuel does not change a result that already ended |
| Bags.AcyclicSearchEnds | src/day_7.rs:86-104 | with no cycle among the rules, the search ends within one more step than there are pairs |
| Bags.LongChainLoops | src/day_7.rs:86-104 | a chain longer than the number of pairs revisits a colour, so on cyclic rules the recursion never ends |
| Bags.CountBags | src/day_7.rs:106-114 | the count exists exactly when the search ends, and then it is the number of distinct colours that can hold the colour |
| Bags.CountBagsDistinct | src/day_7.rs:107-113 | sort, dedup and length give the number of distinct colours the search returned |
| Bags.CountInnerEmpty | src/day_7.rs:116-134 | a colour that no rule gives contents to holds 0 bags |
| Bags.CountInnerCountsBags | src/day_7.rs:116-134 | `Bags.CountInnerBags` (`count_inner_bags`) is this count over the rules' (holder, contents) pairs; the count exists exactly when the unfolding of physical bags inside the colour does, and then it is the number of those bags |
| Bags.CountInnerFuel | src/day_7.rs:116-134 | more fuel does not change a count that already ended |
| Bags.ExampleSearch | src/day_7.rs:266-283 | on the nine-rule example, "shiny gold" can be held by 4 colours |
| Bags.ExampleInner | src/day_7.rs:116-134 | on the nine-rule example, "shiny gold" holds 32 bags |
| Bags.DoublingCount | src/day_7.rs:116-134 | along a chain of colours where each holds two of the next, the i-th colour holds 2 + 4 + ... + 2^(n-i) bags |
| Bags.LadderDoubles | src/day_7.rs:116-134 | the rules "each colour holds two of the next" give such a chain |
| Bags.DoublingExample | src/day_7.rs:285-300 | on the seven-rule doubling example, "shiny gold" holds 126 bags |
| Handheld.Add | src/day_8.rs:37-43 | the sum exists exactly when it is not negative (otherwise the `usize` subtraction panics), and then it is the plain sum |
| Handheld.DecodeOperationInverse | src/day_8.rs:53-59 | each known mnemonic decodes to its operation, and anything that is not a known mnemonic gives `Unknown` |
| Handheld.ParseInstruction | src/day_8.rs:45-68 | a line without the instruction shape becomes `Unknown 0`; a well-shaped line panics exactly when its argument is not a signed decimal numeral within `i32`, and otherwise its argument is that numeral's value and its operation is known exactly when the mnemonic is `acc`, `jmp` or `nop`, in which case it is that mnemonic's operation; no parsed instruction is flagged as executed |
| Handheld.ParseFormatInstruction | src/day_8.rs:45-68 | every known instruction with an `i32` argument, written out, parses back to itself |
| Handheld.ParseProgram | src/day_8.rs:71-74 | the program exists exactly when every line parses, with one instruction per line, in order |
| Handheld.ProgramFromLines | src/day_8.rs:71-74 | the lines give a program exactly when each line parses to that program's instruction at the same index |
| Handheld.ExplainsDeterminesOutcome | src/day_8.rs:80-109 | at most one outcome and step count agree with the reference semantics, so that agreement fixes the result |
| Handheld.MarkExecuted | src/day_8.rs:105 | flagging an unexecuted instruction adds exactly one to the number executed |
| Handheld.Execute | src/day_8.rs:88-103 | one instruction moves the program counter and the accumulator as the reference step says |
| Handheld.HistoryStep | src/day_8.rs:80-108 | running the next unflagged instruction extends the run by one reference step and flags exactly that instruction |
| Handheld.HistoryOutOfBounds | src/day_8.rs:108 | a counter that has left the program ends the run as an out-of-bounds panic, as the reference semantics prescribes |
| Handheld.HistoryLoop | src/day_8.rs:80-83 | reaching a flagged instruction ends the run with the current accumulator, as the reference semantics prescribes |
| Handheld.RunInstructions | src/day_8.rs:70-112 | the argument panic happens exactly when some line does not parse; otherwise the outcome is the one the reference semantics prescribes |
| Handheld.RunProgram | src/day_8.rs:76-111 | on an unflagged program the loop's outcome and step count are the ones the reference semantics prescribes, including the panic on an empty program |
| Handheld.FixtureParses | src/day_8.rs:179-194 | the nine lines of the example parse to the expected program |
| Handheld.FixtureLoops | src/day_8.rs:179-194 | the example program runs seven instructions and then loops with accumulator 5 |
| Handheld.FixtureAccumulator | src/day_8.rs:179-194 | running the example lines gives accumulator 5 |

## Left out

- File reading, printing, the per-day `run` entry points and the `main` dispatch. The model starts from the file's lines or contents.
- The random retry loops of src/day_1.rs:30-59. They shuffle the input until the adjacent-window search succeeds. Randomness is not modelled; the search itself is `Expense.FindSum2` / `Expense.FindSum3`.
- The regex engine. Each pattern is modelled by a hand-written matcher for that one pattern: `^(.*) bags contain (.*)\.$`, `^([0-9]+) (.*) bags?$`, `^([a-z]{3}) ([0-9+-]+)$` and `([a-z]{3}):`.
- `lines_from_file` (src/lib.rs:32-34), the file reading of each `run`; see the first bullet.
- `Display`, `Debug`, `PartialEq` and the unused `AdventError` (src/lib.rs:36-57).
- Expense.FindSum2: the `i32` overflow of `a + b` (a panic in a debug build) is not modelled; sums are unbounded.
- Expense.FindSum3: the `i32` overflow of `a + b + c` is not modelled either.
- Handheld.RunInstructions: the `i32` overflow of the accumulator is not modelled. On a 64-bit target, `add` cannot overflow `usize` for the program lengths involved.
- Toboggan.TreeTotal: the `u64` overflow of the running total and the `i32` tree count are not modelled; the same holds for Toboggan.TreeProduct.
- Toboggan.CountTrees: requires a positive step down; `run` only uses steps down of 1 and 2. With a step of 0 the loop stays on the first row: it never ends when the step right is at most the width of a non-empty first row, and otherwise panics on a column past the end of that row. An empty map panics at `map[0]` whatever the step, and the model does give `None` for it.
- Bags.CountBags: the search is bounded by a fuel parameter, and `None` stands for "did not end within the fuel". On cyclic rules the source recurses until the stack overflows; `Bags.LongChainLoops` and `Bags.SearchDefined` characterise when `None` is final.
- Bags.CountInnerCountsBags: `count_inner_bags` is bounded by fuel in the same way, and the `i32` overflow of its sum is not modelled.
- Bags.ExampleSearch: the examples start from the parsed rules. The parser is covered for all well-formed rules by `Bags.ParseFormatRule` instead of on the nine literal lines.
- Passwords.CountValidMeaning: the `i32` line counter of both solvers is unbounded here.

## Findings

| source | as written | input that shows it | evidently intended | confidence | as-written member | corrected member |
|---|---|---|---|---|---|---|
| src/day_2.rs:25-32 | the guard against short passwords is `len + 1 >= second`, so a second position one past the end passes the guard and the byte index panics | "1-4 a: abc" | passwords shorter than the second position are skipped, i.e. `len >= second` | high; not executed | Passwords.RunShortPasswordPanics | Passwords.PositionsMeaning |
| advent/src/day_3.rs:80-87 | the running product treats a total of 0 as "nothing yet", so after a slope with no trees the next count replaces the total instead of multiplying it | tree counts 2, 0, 3 give 3 | the product of the five counts, 0 here | medium; not executed | Toboggan.FoldAsWrittenRestarts | Toboggan.TreeProduct |
| src/day_6.rs:6-11 | a group's size is its newline count plus one; the last group of a file keeps the file's final newline, so its size is one too many and it counts 0 | the group "b" followed by a newline | the size is the number of answer lines, so the group counts 1 | medium; not executed | Customs.RunTrailingNewline | Customs.GroupAnswersLines |
