/** Day 5: boarding passes. The first seven characters of a pass pick one
    of 128 rows by halving (`F` the front half, anything else the back half),
    the rest pick one of 8 columns (`L` the left half, anything else the
    right half); the seat ID is `row * 8 + column`, and the missing seat is
    the one after the end of the first consecutive run of sorted IDs. */
module Boarding {
  import opened Text
  import opened Numbers
  import opened Sorting

  datatype Seat = Seat(row: int, column: int)

  // ---------------------------------------------------------------------------
  // `generate_seat_id`

  function SeatId(seat: Seat): int
  {
    seat.row * 8 + seat.column
  }

  /** The ID keeps the row in its high part and the column in its low three
      bits, so both can be read back from it ... */
  lemma SeatIdInverse(seat: Seat)
    requires 0 <= seat.column < 8
    ensures SeatId(seat) / 8 == seat.row && SeatId(seat) % 8 == seat.column
  {
  }

  /** ... no two seats of the plane share an ID, and the IDs of the plane are
      0 to 1023. */
  lemma SeatIdInjective(a: Seat, b: Seat)
    requires 0 <= a.column < 8 && 0 <= b.column < 8
    ensures SeatId(a) == SeatId(b) <==> a == b
  {
    SeatIdInverse(a);
    SeatIdInverse(b);
  }

  lemma SeatIdRange(seat: Seat)
    requires 0 <= seat.row < 128 && 0 <= seat.column < 8
    ensures 0 <= SeatId(seat) < 1024
  {
  }

  // ---------------------------------------------------------------------------
  // `find_seat`

  /** The halving loop over `code`, from the range `lower..=upper`: `low`
      keeps the lower half and any other character the upper half. Both bounds
      stay non-negative, so `/` here agrees with Rust's division. */
  function Halve(lower: nat, upper: nat, code: string, low: char): (nat, nat)
    decreases |code|
  {
    if |code| == 0 then (lower, upper)
    else
      var middle := (lower + upper) / 2;
      if code[0] == low then Halve(lower, middle, code[1..], low)
      else Halve(middle + 1, upper, code[1..], low)
  }

  /** The value of `code` read as a binary number, most significant digit
      first, with `low` for 0 and any other character for 1. */
  function Bits(code: string, low: char): (v: nat)
    ensures v < Pow2(|code|)
  {
    if |code| == 0 then 0
    else (if code[0] == low then 0 else Pow2(|code| - 1)) + Bits(code[1..], low)
  }

  /** From a range of `2^n` values starting at `lower`, the halvings of a
      code of at most `n` characters leave a range starting `Bits(code)`
      blocks of `2^(n - |code|)` values above `lower`: so `n` halvings leave
      exactly the binary value of the code. */
  lemma {:induction false} HalveBinary(lower: nat, upper: nat, code: string, low: char, n: nat)
    requires |code| <= n && upper == lower + Pow2(n) - 1
    ensures Halve(lower, upper, code, low).0 == lower + Shift(Bits(code, low), n - |code|)
    decreases |code|, 1
  {
    if |code| == 0 {
      ShiftAdd(0, 0, n);
    } else if code[0] == low {
      HalveLow(lower, upper, code, low, n);
    } else {
      HalveHigh(lower, upper, code, low, n);
    }
  }

  /** A leading low character keeps the lower half of the range. */
  lemma {:induction false} HalveLow(lower: nat, upper: nat, code: string, low: char, n: nat)
    requires 0 < |code| <= n && code[0] == low && upper == lower + Pow2(n) - 1
    ensures Halve(lower, upper, code, low).0 == lower + Shift(Bits(code, low), n - |code|)
    decreases |code|, 0
  {
    var half := Pow2(n - 1);
    assert Pow2(n) == 2 * half;
    HalveBinary(lower, lower + half - 1, code[1..], low, n - 1);
    HalveStep(lower, upper, code, low, half);
  }

  /** A leading high character keeps the upper half of the range. */
  lemma {:induction false} HalveHigh(lower: nat, upper: nat, code: string, low: char, n: nat)
    requires 0 < |code| <= n && code[0] != low && upper == lower + Pow2(n) - 1
    ensures Halve(lower, upper, code, low).0 == lower + Shift(Bits(code, low), n - |code|)
    decreases |code|, 0
  {
    var rest, m, half := code[1..], n - |code|, Pow2(n - 1);
    assert Pow2(n) == 2 * half;
    assert Halve(lower + half, upper, rest, low).0 == lower + half + Shift(Bits(rest, low), m) by {
      HalveBinary(lower + half, upper, rest, low, n - 1);
    }
    assert Halve(lower, upper, code, low) == Halve(lower + half, upper, rest, low) by {
      HalveStep(lower, upper, code, low, half);
    }
    assert Shift(Bits(code, low), m) == half + Shift(Bits(rest, low), m) by {
      HighBitShift(code, low, n);
    }
  }

  /** A leading high character contributes the upper half of the range. */
  lemma HighBitShift(code: string, low: char, n: nat)
    requires 0 < |code| <= n && code[0] != low
    ensures Shift(Bits(code, low), n - |code|) == Pow2(n - 1) + Shift(Bits(code[1..], low), n - |code|)
  {
    var rest, m := code[1..], n - |code|;
    assert Shift(Pow2(|rest|), m) == Pow2(n - 1) by {
      assert |rest| + m == n - 1;
      ShiftPow2(|rest|, m);
    }
    assert Bits(code, low) == Pow2(|rest|) + Bits(rest, low);
    ShiftAdd(Pow2(|rest|), Bits(rest, low), m);
  }

  /** One halving of a range of `2 * half` values keeps one of its halves. */
  lemma HalveStep(lower: nat, upper: nat, code: string, low: char, half: nat)
    requires |code| > 0 && half >= 1 && upper == lower + 2 * half - 1
    ensures Halve(lower, upper, code, low) ==
      if code[0] == low then Halve(lower, lower + half - 1, code[1..], low)
      else Halve(lower + half, upper, code[1..], low)
  {
    assert lower + upper == 2 * (lower + half - 1) + 1;
  }

  /** `find_seat`: None when the pass has fewer than 7 bytes or byte 7 falls
      inside a character, where slicing `&pass[..7]` panics. */
  function FindSeat(pass: string): (r: Option<Seat>)
    ensures r.None? <==> forall k :: 0 <= k <= |pass| ==> Utf8Length(pass[..k]) != 7
  {
    match CharsInBytes(pass, 7)
    case None =>
      CharsInBytesNone(pass, 7);
      None
    case Some(k) =>
      Some(Seat(Halve(0, 127, pass[..k], 'F').0, Halve(0, 7, pass[k..], 'L').0))
  }

  /** A pass of ten ASCII characters decodes to the binary values of its
      first seven and last three characters. */
  lemma FindSeatDecodes(pass: string)
    requires IsAscii(pass) && |pass| == 10
    ensures FindSeat(pass) == Some(Seat(Bits(pass[..7], 'F'), Bits(pass[7..], 'L')))
    ensures 0 <= FindSeat(pass).value.row < 128 && 0 <= FindSeat(pass).value.column < 8
  {
    AsciiCharsInBytes(pass, 7);
    HalveBinary(0, 127, pass[..7], 'F', 7);
    HalveBinary(0, 7, pass[7..], 'L', 3);
  }

  /** Whatever the pass, a decoded row is one of the 128 rows: the row part
      is seven bytes, so at most seven characters. */
  lemma FindSeatRow(pass: string)
    requires FindSeat(pass).Some?
    ensures 0 <= FindSeat(pass).value.row < 128
  {
    var k := CharsInBytes(pass, 7).value;
    Utf8LengthAtLeast(pass[..k]);
    HalveBinary(0, 127, pass[..k], 'F', 7);
    var v := Bits(pass[..k], 'F');
    ShiftAdd(v, 1, 7 - k);
    ShiftAdd(v + 1, Pow2(k) - v - 1, 7 - k);
    ShiftPow2(k, 7 - k);
    ShiftPow2(0, 7 - k);
  }

  // ---------------------------------------------------------------------------
  // The notation `find_seat` decodes.

  /** `v` written as `width` binary digits, `low` for 0 and `high` for 1. */
  function BitsCode(v: nat, width: nat, low: char, high: char): (code: string)
    requires v < Pow2(width)
    ensures |code| == width
    ensures forall k :: 0 <= k < |code| ==> code[k] == low || code[k] == high
  {
    if width == 0 then ""
    else if v >= Pow2(width - 1) then [high] + BitsCode(v - Pow2(width - 1), width - 1, low, high)
    else [low] + BitsCode(v, width - 1, low, high)
  }

  lemma {:induction false} BitsOfCode(v: nat, width: nat, low: char, high: char)
    requires v < Pow2(width) && low != high
    ensures Bits(BitsCode(v, width, low, high), low) == v
  {
    if width > 0 {
      var code := BitsCode(v, width, low, high);
      if v >= Pow2(width - 1) {
        BitsOfCode(v - Pow2(width - 1), width - 1, low, high);
      } else {
        BitsOfCode(v, width - 1, low, high);
      }
      assert code[1..] == BitsCode(if v >= Pow2(width - 1) then v - Pow2(width - 1) else v, width - 1, low, high);
    }
  }

  lemma {:induction false} CodeOfBits(code: string, low: char, high: char)
    requires low != high
    requires forall k :: 0 <= k < |code| ==> code[k] == low || code[k] == high
    ensures BitsCode(Bits(code, low), |code|, low, high) == code
  {
    if |code| > 0 {
      var rest := code[1..];
      CodeOfBits(rest, low, high);
      assert code == [code[0]] + rest;
      CodeStep(code[0], rest, low, high);
    }
  }

  /** Putting one more character in front of a code that reads back keeps
      it reading back. */
  lemma CodeStep(c: char, rest: string, low: char, high: char)
    requires low != high && (c == low || c == high)
    requires BitsCode(Bits(rest, low), |rest|, low, high) == rest
    ensures BitsCode(Bits([c] + rest, low), |rest| + 1, low, high) == [c] + rest
  {
    var code, v := [c] + rest, Bits(rest, low);
    assert code[1..] == rest;
    if c == low {
      assert Bits(code, low) == v;
    } else {
      assert Bits(code, low) == Pow2(|rest|) + v;
    }
  }

  /** The pass of a seat of the plane. */
  function SeatCode(seat: Seat): (pass: string)
    requires 0 <= seat.row < 128 && 0 <= seat.column < 8
    ensures |pass| == 10
  {
    BitsCode(seat.row, 7, 'F', 'B') + BitsCode(seat.column, 3, 'L', 'R')
  }

  predicate WellFormedPass(pass: string)
  {
    && |pass| == 10
    && (forall k :: 0 <= k < 7 ==> pass[k] == 'F' || pass[k] == 'B')
    && (forall k :: 7 <= k < 10 ==> pass[k] == 'L' || pass[k] == 'R')
  }

  /** Decoding the pass of a seat gives the seat back ... */
  lemma FindSeatCode(seat: Seat)
    requires 0 <= seat.row < 128 && 0 <= seat.column < 8
    ensures WellFormedPass(SeatCode(seat))
    ensures FindSeat(SeatCode(seat)) == Some(seat)
  {
    var pass := SeatCode(seat);
    assert pass[..7] == BitsCode(seat.row, 7, 'F', 'B');
    assert pass[7..] == BitsCode(seat.column, 3, 'L', 'R');
    assert IsAscii(pass) by {
      forall k | 0 <= k < 10
        ensures pass[k] as int < 0x80
      {
        if k < 7 {
          assert pass[k] == pass[..7][k];
        } else {
          assert pass[k] == pass[7..][k - 7];
        }
      }
    }
    BitsOfCode(seat.row, 7, 'F', 'B');
    BitsOfCode(seat.column, 3, 'L', 'R');
    FindSeatDecodes(pass);
  }

  /** ... and every well-formed pass is the pass of the seat it decodes to. */
  lemma SeatCodeOf(pass: string)
    requires WellFormedPass(pass)
    ensures FindSeat(pass).Some?
    ensures 0 <= FindSeat(pass).value.row < 128 && 0 <= FindSeat(pass).value.column < 8
    ensures SeatCode(FindSeat(pass).value) == pass
  {
    assert IsAscii(pass);
    FindSeatDecodes(pass);
    CodeOfBits(pass[..7], 'F', 'B');
    CodeOfBits(pass[7..], 'L', 'R');
    assert pass == pass[..7] + pass[7..];
  }

  // ---------------------------------------------------------------------------
  // The two loops of `find_seat` as written.

  /** `find_seat` with its two loops; it computes exactly the halving above. */
  method FindSeatByLoops(pass: string) returns (r: Option<Seat>)
    ensures r == FindSeat(pass)
  {
    var rowChars := CharsInBytes(pass, 7);
    if rowChars.None? {
      return None;
    }
    var rowDef := pass[..rowChars.value];
    var lower: nat, upper: nat := 0, 127;
    var i := 0;
    while i < |rowDef|
      invariant 0 <= i <= |rowDef|
      invariant Halve(lower, upper, rowDef[i..], 'F') == Halve(0, 127, rowDef, 'F')
    {
      assert rowDef[i..][1..] == rowDef[i + 1..];
      var middle := (lower + upper) / 2;
      if rowDef[i] == 'F' {
        upper := middle;
      } else {
        lower := middle + 1;
      }
      i := i + 1;
    }
    var row := lower;
    var columnDef := pass[rowChars.value..];
    lower, upper := 0, 7;
    i := 0;
    while i < |columnDef|
      invariant 0 <= i <= |columnDef|
      invariant Halve(lower, upper, columnDef[i..], 'L') == Halve(0, 7, columnDef, 'L')
    {
      assert columnDef[i..][1..] == columnDef[i + 1..];
      var middle := (lower + upper) / 2;
      if columnDef[i] == 'L' {
        upper := middle;
      } else {
        lower := middle + 1;
      }
      i := i + 1;
    }
    return Some(Seat(row, lower));
  }

  // ---------------------------------------------------------------------------
  // The search for the missing seat in `run`.

  /** The loop from index 1 that stops at the first ID that is not one more
      than the ID before it (or at the end). */
  function FirstGap(ids: seq<int>, i: nat): (r: nat)
    requires 1 <= i
    requires forall j :: 1 <= j < i && j < |ids| ==> ids[j] == ids[j - 1] + 1
    ensures 1 <= i <= r && (i <= |ids| ==> r <= |ids|)
    ensures forall j :: 1 <= j < r && j < |ids| ==> ids[j] == ids[j - 1] + 1
    ensures r < |ids| ==> ids[r] != ids[r - 1] + 1
    decreases |ids| - i
  {
    if i < |ids| && ids[i] == ids[i - 1] + 1 then FirstGap(ids, i + 1) else i
  }

  datatype Report = Report(highest: int, mine: int)

  /** The answers `run` prints: the highest ID, and one more than the ID at
      the end of the first consecutive run. None when a pass is too short
      to slice, or when there are no passes (`last().unwrap()` panics). */
  function FindMySeat(passes: seq<string>): (r: Option<Report>)
  {
    match DecodeAll(passes)
    case None => None
    case Some(ids) => MySeat(ids)
  }

  /** The report from the decoded IDs: sort them, take the last, and scan
      for the first gap. */
  function MySeat(ids: seq<int>): (r: Option<Report>)
  {
    var seats := SortIds(ids);
    if |seats| == 0 then None
    else
      var i := FirstGap(seats, 1);
      Some(Report(seats[|seats| - 1], seats[i - 1] + 1))
  }

  /** `ids.sort()`. */
  function SortIds(ids: seq<int>): (r: seq<int>)
    ensures SortedBy(r, IntLe) && multiset(r) == multiset(ids)
  {
    IntIsTotalOrder();
    Sort(ids, IntLe)
  }

  /** The seat IDs of all passes, in order. */
  function DecodeAll(passes: seq<string>): (r: Option<seq<int>>)
    ensures r.Some? <==> forall k :: 0 <= k < |passes| ==> FindSeat(passes[k]).Some?
    ensures r.Some? ==> |r.value| == |passes|
    ensures r.Some? ==> forall k :: 0 <= k < |passes| ==> r.value[k] == SeatId(FindSeat(passes[k]).value)
  {
    if |passes| == 0 then Some([])
    else
      match FindSeat(passes[0])
      case None => None
      case Some(seat) =>
        match DecodeAll(passes[1..])
        case None =>
          assert forall k :: 1 <= k < |passes| ==> passes[1..][k - 1] == passes[k];
          None
        case Some(rest) => Some([SeatId(seat)] + rest)
  }

  lemma {:induction false} ConsecutiveRun(ids: seq<int>, i: nat)
    requires i <= |ids|
    requires forall j :: 1 <= j < i ==> ids[j] == ids[j - 1] + 1
    ensures forall j :: 0 <= j < i ==> ids[j] == ids[0] + j
  {
    if i > 1 {
      ConsecutiveRun(ids, i - 1);
      assert ids[i - 1] == ids[i - 2] + 1;
    }
  }

  /** The scan over sorted IDs: the ID after the first run is one more than
      a present ID, every value from the lowest ID up to it is present, and
      without repeated IDs it is absent itself. */
  lemma GapMeaning(seats: seq<int>)
    requires |seats| > 0 && SortedBy(seats, IntLe)
    ensures var mine := seats[FirstGap(seats, 1) - 1] + 1;
      && mine - 1 in seats
      && (forall v :: seats[0] <= v < mine ==> v in seats)
      && (Distinct(seats) ==> mine !in seats)
  {
    var i := FirstGap(seats, 1);
    var mine := seats[i - 1] + 1;
    ConsecutiveRun(seats, i);
    forall v | seats[0] <= v < mine
      ensures v in seats
    {
      assert seats[v - seats[0]] == v;
    }
    if Distinct(seats) {
      forall j | 0 <= j < |seats|
        ensures seats[j] != mine
      {
        if j >= i {
          assert IntLe(seats[i - 1], seats[i]) && IntLe(seats[i], seats[j]);
        } else {
          assert j == i - 1 || IntLe(seats[j], seats[i - 1]);
        }
      }
    }
  }

  /** The highest ID is the largest. The ID reported as mine follows a
      present ID, and every value from the lowest ID up to it is an ID; when
      no two passes share an ID it is itself absent, so it is the first value
      above the lowest ID that no pass has. */
  predicate ReportFits(ids: seq<int>, r: Report)
  {
    && r.highest in ids
    && (forall id :: id in ids ==> id <= r.highest)
    && r.mine - 1 in ids
    && (forall low, v :: low in ids && low <= v < r.mine ==> v in ids)
    && (Distinct(ids) ==> r.mine !in ids)
  }

  /** What the report means: it exists exactly when there are passes and all
      of them decode, and then it fits their IDs. */
  lemma FindMySeatMeaning(passes: seq<string>)
    ensures FindMySeat(passes).Some? <==>
      |passes| > 0 && forall k :: 0 <= k < |passes| ==> FindSeat(passes[k]).Some?
    ensures FindMySeat(passes).Some? ==> ReportFits(DecodeAll(passes).value, FindMySeat(passes).value)
  {
    if DecodeAll(passes).Some? {
      MySeatMeaning(DecodeAll(passes).value);
    }
  }

  /** From the IDs, a report exists exactly when there is an ID, and it fits
      them. */
  lemma MySeatMeaning(ids: seq<int>)
    ensures MySeat(ids).Some? <==> |ids| > 0
    ensures MySeat(ids).Some? ==> ReportFits(ids, MySeat(ids).value)
  {
    var seats := SortIds(ids);
    assert |seats| == |ids| by {
      assert |multiset(seats)| == |multiset(ids)|;
    }
    if |seats| > 0 {
      ReportOfSorted(ids, seats);
    }
  }

  lemma ReportOfSorted(ids: seq<int>, seats: seq<int>)
    requires |seats| > 0 && SortedBy(seats, IntLe) && multiset(seats) == multiset(ids)
    ensures ReportFits(ids, Report(seats[|seats| - 1], seats[FirstGap(seats, 1) - 1] + 1))
  {
    HighestFits(ids, seats);
    MineFollowsRun(ids, seats);
    MineAbsent(ids, seats);
  }

  /** The last sorted ID is an ID and no ID exceeds it. */
  lemma HighestFits(ids: seq<int>, seats: seq<int>)
    requires |seats| > 0 && SortedBy(seats, IntLe) && multiset(seats) == multiset(ids)
    ensures seats[|seats| - 1] in ids && forall id :: id in ids ==> id <= seats[|seats| - 1]
  {
    assert seats[|seats| - 1] in seats;
    SameMembers(seats, ids);
    SortedEnds(seats);
  }

  /** The ID reported as mine follows an ID, and every value from any ID up
      to it is an ID. */
  lemma MineFollowsRun(ids: seq<int>, seats: seq<int>)
    requires |seats| > 0 && SortedBy(seats, IntLe) && multiset(seats) == multiset(ids)
    ensures var mine := seats[FirstGap(seats, 1) - 1] + 1;
      mine - 1 in ids && forall low, v :: low in ids && low <= v < mine ==> v in ids
  {
    SameMembers(seats, ids);
    SortedEnds(seats);
    GapMeaning(seats);
  }

  /** Without repeated IDs, the ID reported as mine is not among them. */
  lemma MineAbsent(ids: seq<int>, seats: seq<int>)
    requires |seats| > 0 && SortedBy(seats, IntLe) && multiset(seats) == multiset(ids)
    ensures Distinct(ids) ==> seats[FirstGap(seats, 1) - 1] + 1 !in ids
  {
    if Distinct(ids) {
      DistinctPermutation(ids, seats);
      GapMeaning(seats);
      SameMembers(seats, ids);
    }
  }

  lemma SameMembers(a: seq<int>, b: seq<int>)
    requires multiset(a) == multiset(b)
    ensures forall x :: x in a <==> x in b
  {
    forall x
      ensures x in a <==> x in b
    {
      assert x in a <==> x in multiset(a);
      assert x in b <==> x in multiset(b);
    }
  }

  /** Sorted IDs lie between the first and the last. */
  lemma SortedEnds(seats: seq<int>)
    requires |seats| > 0 && SortedBy(seats, IntLe)
    ensures forall x :: x in seats ==> seats[0] <= x <= seats[|seats| - 1]
  {
    forall x | x in seats
      ensures seats[0] <= x <= seats[|seats| - 1]
    {
      var j :| 0 <= j < |seats| && seats[j] == x;
      assert j == 0 || IntLe(seats[0], seats[j]);
      assert j == |seats| - 1 || IntLe(seats[j], seats[|seats| - 1]);
    }
  }

  // ---------------------------------------------------------------------------
  // The puzzle's examples.

  /** The four passes of the puzzle statement, each the pass of its seat. */
  lemma ExampleRow44(pass: string)
    requires pass == "FBFBBFFRLR"
    ensures FindSeat(pass) == Some(Seat(44, 5)) && SeatId(Seat(44, 5)) == 357
  {
    assert pass == SeatCode(Seat(44, 5)) by {
      assert Pow2(6) == 64 && Pow2(5) == 32 && Pow2(4) == 16 && Pow2(3) == 8;
      assert Pow2(2) == 4 && Pow2(1) == 2 && Pow2(0) == 1;
    }
    FindSeatCode(Seat(44, 5));
  }

  lemma ExampleRow70(pass: string)
    requires pass == "BFFFBBFRRR"
    ensures FindSeat(pass) == Some(Seat(70, 7)) && SeatId(Seat(70, 7)) == 567
  {
    assert pass == SeatCode(Seat(70, 7)) by {
      assert Pow2(6) == 64 && Pow2(5) == 32 && Pow2(4) == 16 && Pow2(3) == 8;
      assert Pow2(2) == 4 && Pow2(1) == 2 && Pow2(0) == 1;
    }
    FindSeatCode(Seat(70, 7));
  }

  lemma ExampleRow14(pass: string)
    requires pass == "FFFBBBFRRR"
    ensures FindSeat(pass) == Some(Seat(14, 7)) && SeatId(Seat(14, 7)) == 119
  {
    assert pass == SeatCode(Seat(14, 7)) by {
      assert Pow2(6) == 64 && Pow2(5) == 32 && Pow2(4) == 16 && Pow2(3) == 8;
      assert Pow2(2) == 4 && Pow2(1) == 2 && Pow2(0) == 1;
    }
    FindSeatCode(Seat(14, 7));
  }

  lemma ExampleRow102(pass: string)
    requires pass == "BBFFBBFRLL"
    ensures FindSeat(pass) == Some(Seat(102, 4)) && SeatId(Seat(102, 4)) == 820
  {
    assert pass == SeatCode(Seat(102, 4)) by {
      assert Pow2(6) == 64 && Pow2(5) == 32 && Pow2(4) == 16 && Pow2(3) == 8;
      assert Pow2(2) == 4 && Pow2(1) == 2 && Pow2(0) == 1;
    }
    FindSeatCode(Seat(102, 4));
  }
}
