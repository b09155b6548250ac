/** Day 3: a toboggan slides down a grid of open squares (`.`) and trees
    (`#`) on a fixed slope, `right` columns across for every `down` rows,
    wrapping back by the width of the first row whenever it passes the right
    edge, and counts the trees it lands on. */
module Toboggan {
  import opened Text

  /** `Position`: where the toboggan is and the slope it keeps. */
  datatype Position = Position(x: nat, y: nat, right: nat, down: nat)

  /** One row of characters per input line. */
  type Map = seq<seq<char>>

  /** `Position::new`: the top-left corner. */
  function NewPosition(right: nat, down: nat): (p: Position)
    ensures p.x == 0 && p.y == 0
    ensures p.right == right && p.down == down
  {
    Position(0, 0, right, down)
  }

  /** `slide`: one step along the slope; the slope itself is kept. */
  function Slide(p: Position): (q: Position)
    ensures q.x == p.x + p.right && q.y == p.y + p.down
    ensures q.right == p.right && q.down == p.down
  {
    p.(x := p.x + p.right, y := p.y + p.down)
  }

  function SlideTimes(p: Position, k: nat): Position
  {
    if k == 0 then p else Slide(SlideTimes(p, k - 1))
  }

  /** After `k` slides from the corner the toboggan is `k` slopes away. */
  lemma {:induction false} SlideTimesFromCorner(right: nat, down: nat, k: nat)
    ensures SlideTimes(NewPosition(right, down), k) == Position(k * right, k * down, right, down)
  {
    if k > 0 {
      SlideTimesFromCorner(right, down, k - 1);
    }
  }

  // ---------------------------------------------------------------------------
  // `read_lines_into_map`

  /** None for no lines, where reading the first line's length panics. */
  function ReadMap(lines: seq<string>): (grid: Option<Map>)
    ensures grid.Some? <==> |lines| > 0
    ensures grid.Some? ==> |grid.value| == |lines| && forall i :: 0 <= i < |lines| ==> grid.value[i] == lines[i]
  {
    if |lines| == 0 then None else Some(lines)
  }

  // ---------------------------------------------------------------------------
  // `toboggan`

  /** The column after `k` slides: `right` further, less `width` once when
      that passes the edge. */
  function Column(right: nat, width: nat, k: nat): nat
  {
    if k == 0 then 0
    else
      var x := Column(right, width, k - 1) + right;
      if x >= width then x - width else x
  }

  /** With a slope no wider than the grid the single subtraction is enough:
      the column is the distance travelled modulo the width. */
  lemma {:induction false} ColumnWraps(right: nat, width: nat, k: nat)
    requires 0 < width && right <= width
    ensures Column(right, width, k) == (k * right) % width
  {
    if k > 0 {
      ColumnWraps(right, width, k - 1);
      MulSucc(k - 1, right);
      WrapStep(Column(right, width, k - 1), (k - 1) * right, right, width);
    }
  }

  /** One slide from a column `c` that is `t` modulo the width. */
  lemma WrapStep(c: nat, t: nat, right: nat, width: nat)
    requires 0 < width && right <= width && c == t % width
    ensures (t + right) % width == if c + right >= width then c + right - width else c + right
  {
    ModAdd(t, right, width);
  }

  lemma MulSucc(k: nat, r: nat)
    ensures (k + 1) * r == k * r + r
  {
  }

  lemma ModAdd(a: nat, b: nat, m: nat)
    requires 0 < m && b <= m
    ensures (a % m + b >= m ==> (a + b) % m == a % m + b - m)
    ensures (a % m + b < m ==> (a + b) % m == a % m + b)
  {
    var q := a / m;
    if a % m + b >= m {
      ModUnique(a + b, m, q + 1, a % m + b - m);
    } else {
      ModUnique(a + b, m, q, a % m + b);
    }
  }

  /** Division with a remainder in `0..m` is unique. */
  lemma ModUnique(n: int, m: int, q: int, r: int)
    requires 0 < m && 0 <= r < m && n == q * m + r
    ensures n % m == r
  {
    var d := q - n / m;
    assert d * m == n % m - r;
  }

  /** The number of rows visited: 0, `down`, `2 * down`, ... below `height`. */
  function Visits(height: nat, down: nat): nat
    requires down > 0
  {
    (height + down - 1) / down
  }

  lemma VisitsExact(height: nat, down: nat, k: nat)
    requires down > 0
    ensures k * down < height <==> k < Visits(height, down)
  {
    var n := height + down - 1;
    var r := Visits(height, down);
    assert n == r * down + n % down;
    assert r * down + down == (r + 1) * down;
    if k < r {
      MulMonotone(k, r - 1, down);
      assert (r - 1) * down == r * down - down;
    } else {
      MulMonotone(r, k, down);
    }
  }

  lemma MulMonotone(a: nat, b: nat, m: nat)
    requires a <= b
    ensures a * m <= b * m
  {
    assert b * m == a * m + (b - a) * m;
  }

  /** The square after `k` slides lies inside its row. */
  predicate Fits(grid: Map, right: nat, down: nat, k: nat)
    requires |grid| > 0
  {
    k * down < |grid| && Column(right, |grid[0]|, k) < |grid[k * down]|
  }

  /** The first `n` squares visited lie inside their rows. */
  predicate FitsUpTo(grid: Map, right: nat, down: nat, n: nat)
    requires |grid| > 0
  {
    forall k :: 0 <= k < n ==> Fits(grid, right, down, k)
  }

  /** Every visited square lies inside its row. */
  predicate InBounds(grid: Map, right: nat, down: nat)
    requires |grid| > 0 && down > 0
  {
    FitsUpTo(grid, right, down, Visits(|grid|, down))
  }

  /** The square the toboggan lands on after `k` slides; a square outside
      its row (where indexing panics, and which `InBounds` rules out) reads
      as open. */
  function Square(grid: Map, right: nat, down: nat, k: nat): char
    requires |grid| > 0
  {
    var y := k * down;
    var x := Column(right, |grid[0]|, k);
    if y < |grid| && x < |grid[y]| then grid[y][x] else '.'
  }

  /** The squares the toboggan lands on, from the top. */
  function Squares(grid: Map, right: nat, down: nat): (s: seq<char>)
    requires |grid| > 0 && down > 0
    ensures |s| == Visits(|grid|, down)
    ensures forall k :: 0 <= k < |s| ==> s[k] == Square(grid, right, down, k)
  {
    seq(Visits(|grid|, down), k requires 0 <= k => Square(grid, right, down, k))
  }

  /** `toboggan`: the number of trees on the squares visited. None when the
      grid is empty (reading the width panics) or a visited square lies
      outside its row. `down` must be positive, or the loop never ends. */
  method CountTrees(grid: Map, right: nat, down: nat) returns (r: Option<nat>)
    requires down > 0
    ensures r.Some? <==> |grid| > 0 && InBounds(grid, right, down)
    ensures r.Some? ==> r.value == Occurrences(Squares(grid, right, down), '#')
  {
    if |grid| == 0 {
      return None;
    }
    var width := |grid[0]|;
    var pos := NewPosition(right, down);
    var trees := 0;
    ghost var squares := Squares(grid, right, down);
    ghost var k: nat := 0;
    while pos.y < |grid|
      invariant pos == Position(Column(right, width, k), k * down, right, down)
      invariant k <= Visits(|grid|, down)
      invariant FitsUpTo(grid, right, down, k)
      invariant trees == Occurrences(squares[..k], '#')
      decreases |grid| - pos.y
    {
      VisitsExact(|grid|, down, k);
      if pos.x >= |grid[pos.y]| {
        assert !Fits(grid, right, down, k);
        return None;
      }
      assert squares[k] == grid[pos.y][pos.x];
      OccurrencesStep(squares, '#', k);
      if grid[pos.y][pos.x] == '#' {
        trees := trees + 1;
      }
      pos := Slide(pos);
      if pos.x >= width {
        pos := pos.(x := pos.x - width);
      }
      assert (k + 1) * down == k * down + down;
      k := k + 1;
    }
    VisitsExact(|grid|, down, k);
    assert squares[..k] == squares;
    return Some(trees);
  }

  /** At most one tree per visited row. */
  lemma TreesAtMostVisits(grid: Map, right: nat, down: nat)
    requires |grid| > 0 && down > 0
    ensures Occurrences(Squares(grid, right, down), '#') <= Visits(|grid|, down)
  {
    OccurrencesBounds(Squares(grid, right, down), '#');
  }

  // ---------------------------------------------------------------------------
  // The five slopes of `run` and the product of their tree counts.

  const Slopes: seq<(nat, nat)> := [(1, 1), (3, 1), (5, 1), (7, 1), (1, 2)]

  function Product(counts: seq<nat>): nat
  {
    if |counts| == 0 then 1 else counts[0] * Product(counts[1..])
  }

  /** A product vanishes exactly when one of its factors does. */
  lemma {:induction false} ProductZero(counts: seq<nat>)
    ensures Product(counts) == 0 <==> 0 in counts
  {
    if |counts| > 0 {
      ProductZero(counts[1..]);
      assert 0 in counts <==> counts[0] == 0 || 0 in counts[1..];
    }
  }

  /** The fold as `run` writes it: a running total of 0 counts as "no total
      yet" and is replaced by the next count instead of multiplied. */
  function FoldAsWritten(total: nat, counts: seq<nat>): nat
    decreases |counts|
  {
    if |counts| == 0 then total
    else FoldAsWritten(if total == 0 then counts[0] else total * counts[0], counts[1..])
  }

  /** While no count is 0 it is the product ... */
  lemma {:induction false} FoldAsWrittenProduct(total: nat, counts: seq<nat>)
    requires total > 0 && 0 !in counts
    ensures FoldAsWritten(total, counts) == total * Product(counts)
    decreases |counts|
  {
    if |counts| > 0 {
      assert counts[0] != 0;
      assert 0 !in counts[1..];
      FoldAsWrittenProduct(total * counts[0], counts[1..]);
    }
  }

  lemma FoldAsWrittenAgrees(counts: seq<nat>)
    requires |counts| > 0 && 0 !in counts
    ensures FoldAsWritten(0, counts) == Product(counts)
  {
    assert 0 !in counts[1..];
    FoldAsWrittenProduct(counts[0], counts[1..]);
  }

  /** ... but a slope with no trees restarts it: counts 2, 0, 3 give 3 where
      the product is 0. */
  lemma FoldAsWrittenRestarts()
    ensures FoldAsWritten(0, [2, 0, 3]) == 3
    ensures Product([2, 0, 3]) == 0
  {
    assert [2, 0, 3][1..] == [0, 3] && [0, 3][1..] == [3];
  }

  /** A fold that ends on a count of 0 ends at 0, and only such a fold (or an
      empty one from 0) does. */
  lemma {:induction false} FoldAsWrittenZero(total: nat, counts: seq<nat>)
    ensures FoldAsWritten(total, counts) == 0 <==>
      (|counts| == 0 && total == 0) || (|counts| > 0 && counts[|counts| - 1] == 0)
    decreases |counts|
  {
    if |counts| > 0 {
      var next := if total == 0 then counts[0] else total * counts[0];
      FoldAsWrittenZero(next, counts[1..]);
      assert next == 0 <==> counts[0] == 0;
      if |counts| > 1 {
        assert counts[1..][|counts| - 2] == counts[|counts| - 1];
      }
    }
  }

  /** The tree count of each of the five slopes, in order. */
  function SlopeTrees(grid: Map): (counts: seq<nat>)
    requires |grid| > 0
    ensures |counts| == |Slopes|
  {
    seq(|Slopes|, i requires 0 <= i < |Slopes| => Occurrences(Squares(grid, Slopes[i].0, Slopes[i].1), '#'))
  }

  /** Every walk stays inside its rows. */
  predicate SlopesInBounds(grid: Map)
  {
    |grid| > 0 && forall i :: 0 <= i < |Slopes| ==> InBounds(grid, Slopes[i].0, Slopes[i].1)
  }

  /** The loop of `run` over the five slopes, collecting their tree counts.
      None when a slope's walk panics. */
  method SlopeCounts(grid: Map) returns (counts: Option<seq<nat>>)
    ensures counts.Some? <==> SlopesInBounds(grid)
    ensures counts.Some? ==> counts.value == SlopeTrees(grid)
  {
    if |grid| == 0 {
      return None;
    }
    var found: seq<nat> := [];
    var i := 0;
    while i < |Slopes|
      invariant 0 <= i <= |Slopes| && |found| == i
      invariant forall j :: 0 <= j < i ==> InBounds(grid, Slopes[j].0, Slopes[j].1)
      invariant forall j :: 0 <= j < i ==> found[j] == Occurrences(Squares(grid, Slopes[j].0, Slopes[j].1), '#')
    {
      var trees := CountTrees(grid, Slopes[i].0, Slopes[i].1);
      if trees.None? {
        return None;
      }
      found := found + [trees.value];
      i := i + 1;
    }
    return Some(found);
  }

  /** The answer `run` prints: the counts folded as written. It is the
      product while no slope has zero trees, and it is 0 exactly when the
      last slope, (1, 2), has none. */
  method TreeTotal(grid: Map) returns (total: Option<nat>)
    ensures total.Some? <==> SlopesInBounds(grid)
    ensures total.Some? ==> total.value == FoldAsWritten(0, SlopeTrees(grid))
    ensures total.Some? && 0 !in SlopeTrees(grid) ==> total.value == Product(SlopeTrees(grid))
    ensures total.Some? ==> (total.value == 0 <==> SlopeTrees(grid)[|Slopes| - 1] == 0)
  {
    var counts := SlopeCounts(grid);
    if counts.None? {
      return None;
    }
    var t := FoldCounts(counts.value);
    return Some(t);
  }

  /** The running total of `run`, one count at a time. */
  method FoldCounts(c: seq<nat>) returns (t: nat)
    ensures t == FoldAsWritten(0, c)
    ensures |c| > 0 && 0 !in c ==> t == Product(c)
    ensures t == 0 <==> |c| == 0 || c[|c| - 1] == 0
  {
    t := 0;
    var i := 0;
    while i < |c|
      invariant 0 <= i <= |c|
      invariant FoldAsWritten(t, c[i..]) == FoldAsWritten(0, c)
    {
      assert c[i..][0] == c[i] && c[i..][1..] == c[i + 1..];
      if t == 0 {
        t := c[i];
      } else {
        t := t * c[i];
      }
      i := i + 1;
    }
    assert c[i..] == [];
    FoldAsWrittenZero(0, c);
    if |c| > 0 && 0 !in c {
      FoldAsWrittenAgrees(c);
    }
  }

  /** The evidently intended answer: the product of the five slopes' tree
      counts, which is 0 exactly when some slope has no trees. */
  method TreeProduct(grid: Map) returns (total: Option<nat>)
    ensures total.Some? <==> SlopesInBounds(grid)
    ensures total.Some? ==> total.value == Product(SlopeTrees(grid))
    ensures total.Some? ==> (total.value == 0 <==> 0 in SlopeTrees(grid))
  {
    var counts := SlopeCounts(grid);
    if counts.None? {
      return None;
    }
    ProductZero(counts.value);
    return Some(Product(counts.value));
  }

  // ---------------------------------------------------------------------------
  // The puzzle's examples.

  lemma ExamplePosition()
    ensures NewPosition(3, 1).x == 0 && NewPosition(3, 1).y == 0
    ensures Slide(NewPosition(3, 1)).x == 3 && Slide(NewPosition(3, 1)).y == 1
  {
  }

  lemma ExampleMap(lines: seq<string>)
    requires lines == [".#.", "#.#", "...", "###"]
    ensures ReadMap(lines) == Some([['.', '#', '.'], ['#', '.', '#'], ['.', '.', '.'], ['#', '#', '#']])
  {
  }

  /** On the slope 3 right, 1 down across a width of 5, the toboggan visits
      the columns 0, 3, 1, 4, 2, 0, 3, ... */
  lemma ExampleColumns()
    ensures Column(3, 5, 0) == 0 && Column(3, 5, 1) == 3 && Column(3, 5, 2) == 1 && Column(3, 5, 3) == 4
    ensures Column(3, 5, 4) == 2 && Column(3, 5, 5) == 0 && Column(3, 5, 6) == 3
  {
  }

  /** Four rows alternating open and trees: two trees. */
  lemma ExampleTwoTrees(grid: Map)
    requires grid == [".....", "#####", ".....", "#####"]
    ensures InBounds(grid, 3, 1)
    ensures Occurrences(Squares(grid, 3, 1), '#') == 2
  {
    ExampleColumns();
    assert Squares(grid, 3, 1) == ".#.#";
    assert ".#.#"[1..] == "#.#" && "#.#"[1..] == ".#" && ".#"[1..] == "#" && "#"[1..] == "";
  }

  /** Seven such rows: three trees. */
  lemma ExampleThreeTrees(grid: Map)
    requires grid == [".....", "#####", ".....", "#####", ".....", "#####", "....."]
    ensures InBounds(grid, 3, 1)
    ensures Occurrences(Squares(grid, 3, 1), '#') == 3
  {
    ExampleColumns();
    assert Squares(grid, 3, 1) == ".#.#.#.";
    assert ".#.#.#."[1..] == "#.#.#." && "#.#.#."[1..] == ".#.#." && ".#.#."[1..] == "#.#.";
    assert "#.#."[1..] == ".#." && ".#."[1..] == "#." && "#."[1..] == "." && "."[1..] == "";
  }
}
