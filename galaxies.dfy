/** problem_11: galaxy distances. Every row and every column without a
    galaxy is expanded; part 1 doubles them in the grid itself, part 2 adds
    the expansion to each Manhattan distance instead. */
module Galaxies {
  import opened Wrappers

  datatype Tile = Empty | Galaxy

  /** `Tile::from_char`; `None` is the panic on any other character. */
  function FromChar(c: char): (r: Option<Tile>)
    ensures r.Some? <==> c == '.' || c == '#'
  {
    match c
    case '.' => Some(Empty)
    case '#' => Some(Galaxy)
    case _ => None
  }

  /** `Tile::to_char`. */
  function ToChar(t: Tile): (c: char)
    ensures c == '.' || c == '#'
  {
    match t
    case Empty => '.'
    case Galaxy => '#'
  }

  /** Printing a parsed character gives it back, and parsing a printed tile
      gives the tile. */
  lemma CharRoundTrip(c: char, t: Tile)
    ensures FromChar(c).Some? ==> ToChar(FromChar(c).value) == c
    ensures FromChar(ToChar(t)) == Some(t)
  {
  }

  type Grid = seq<seq<Tile>>

  function ParseGrid(lines: seq<string>): (r: Option<Grid>)
    ensures r.Some? ==> |r.value| == |lines|
    ensures r.Some? ==> forall i :: 0 <= i < |lines| ==> |r.value[i]| == |lines[i]|
    ensures r.Some? <==> forall i, k :: 0 <= i < |lines| && 0 <= k < |lines[i]| ==> FromChar(lines[i][k]).Some?
    ensures r.Some? ==> forall i, k :: 0 <= i < |lines| && 0 <= k < |lines[i]| ==> FromChar(lines[i][k]) == Some(r.value[i][k])
  {
    var r := MapAll(lines, (line: string) => MapAll(line, FromChar));
    assert forall i :: 0 <= i < |lines| ==> (MapAll(lines[i], FromChar).Some? <==>
      forall k :: 0 <= k < |lines[i]| ==> FromChar(lines[i][k]).Some?);
    assert r.Some? ==> forall i :: 0 <= i < |lines| ==> MapAll(lines[i], FromChar) == Some(r.value[i]);
    r
  }

  // -------------------------------------------------------- distances

  datatype Pos = Pos(lni: nat, xi: nat)

  function AbsDiff(a: nat, b: nat): nat {
    if a >= b then a - b else b - a
  }

  /** `manhattan_dist`. */
  function ManhattanDist(a: Pos, b: Pos): (r: nat)
    ensures r == 0 <==> a == b
  {
    AbsDiff(a.lni, b.lni) + AbsDiff(a.xi, b.xi)
  }

  /** The distance is symmetric and obeys the triangle inequality. */
  lemma ManhattanMetric(a: Pos, b: Pos, c: Pos)
    ensures ManhattanDist(a, b) == ManhattanDist(b, a)
    ensures ManhattanDist(a, c) <= ManhattanDist(a, b) + ManhattanDist(b, c)
  {
  }

  // ------------------------------------------------ expanding the grid

  /** The number of marked entries. */
  function Count(m: seq<bool>): (n: nat)
    ensures n <= |m|
  {
    if m == [] then 0 else (if m[0] then 1 else 0) + Count(m[1..])
  }

  lemma {:induction false} CountAppend(a: seq<bool>, b: seq<bool>)
    ensures Count(a + b) == Count(a) + Count(b)
  {
    if a == [] {
      assert a + b == b;
    } else {
      assert (a + b)[0] == a[0];
      assert (a + b)[1..] == a[1..] + b;
      CountAppend(a[1..], b);
    }
  }

  /** Each element of `s` in order, twice where it is marked: the `flat_map`
      of both `duplicate_empty_rows` and `duplicate_empty_cols`. */
  function ExpandBy<T>(s: seq<T>, m: seq<bool>): (r: seq<T>)
    requires |m| == |s|
    ensures |r| == |s| + Count(m)
  {
    if s == [] then [] else (if m[0] then [s[0], s[0]] else [s[0]]) + ExpandBy(s[1..], m[1..])
  }

  /** Expanding neither loses nor invents an element. */
  lemma {:induction false} ExpandByElements<T>(s: seq<T>, m: seq<bool>, x: T)
    requires |m| == |s|
    ensures x in ExpandBy(s, m) <==> x in s
  {
    if s != [] {
      ExpandByElements(s[1..], m[1..], x);
      assert s == [s[0]] + s[1..];
    }
  }

  /** Where element `i` lands: after the copies added for the marked
      elements before it. */
  function Landing(m: seq<bool>, i: nat): nat
    requires i <= |m|
  {
    i + Count(m[..i])
  }

  /** Element `i` lands at `Landing(m, i)`, followed by its own copy when it
      is marked. */
  lemma {:induction false} ExpandByIndex<T>(s: seq<T>, m: seq<bool>, i: nat)
    requires |m| == |s| && i < |s|
    ensures Landing(m, i) + (if m[i] then 1 else 0) < |ExpandBy(s, m)|
    ensures ExpandBy(s, m)[Landing(m, i)] == s[i]
    ensures m[i] ==> ExpandBy(s, m)[Landing(m, i) + 1] == s[i]
  {
    var head := if m[0] then [s[0], s[0]] else [s[0]];
    var tail := ExpandBy(s[1..], m[1..]);
    assert ExpandBy(s, m) == head + tail;
    if i == 0 {
      assert m[..0] == [];
    } else {
      ExpandByIndex(s[1..], m[1..], i - 1);
      LandingStep(m, i);
      assert Landing(m, i) == |head| + Landing(m[1..], i - 1);
    }
  }

  lemma LandingStep(m: seq<bool>, i: nat)
    requires 0 < i <= |m|
    ensures Count(m[..i]) == (if m[0] then 1 else 0) + Count(m[1..][..i - 1])
  {
    assert m[..i] == [m[0]] + m[1..][..i - 1];
    assert m[..i][1..] == m[1..][..i - 1];
  }

  predicate EmptyLine(ln: seq<Tile>) {
    forall k :: 0 <= k < |ln| ==> ln[k] == Empty
  }

  function RowMarks(grid: Grid): (m: seq<bool>)
    ensures |m| == |grid| && forall i :: 0 <= i < |grid| ==> m[i] == EmptyLine(grid[i])
  {
    seq(|grid|, (i: int) requires 0 <= i < |grid| => EmptyLine(grid[i]))
  }

  /** `duplicate_empty_rows`. */
  function DuplicateEmptyRows(grid: Grid): (r: Grid)
    ensures |r| == |grid| + Count(RowMarks(grid))
  {
    ExpandBy(grid, RowMarks(grid))
  }

  /** The duplicated grid has the same rows, row `i` of the original landing
      at `i` plus the number of empty rows before it. */
  lemma DuplicateRowsSpec(grid: Grid, i: nat)
    requires i < |grid|
    ensures forall ln :: ln in DuplicateEmptyRows(grid) <==> ln in grid
    ensures Landing(RowMarks(grid), i) < |DuplicateEmptyRows(grid)|
    ensures DuplicateEmptyRows(grid)[Landing(RowMarks(grid), i)] == grid[i]
  {
    forall ln {
      ExpandByElements(grid, RowMarks(grid), ln);
    }
    ExpandByIndex(grid, RowMarks(grid), i);
  }

  /** Every row is at least as long as the first; `index_in` and `ln[xi]`
      panic on a shorter row. */
  predicate WideEnough(grid: Grid) {
    |grid| >= 1 && forall i :: 0 <= i < |grid| ==> |grid[i]| >= |grid[0]|
  }

  /** Column `xi` holds no galaxy. */
  predicate EmptyColumn(grid: Grid, xi: nat)
    requires WideEnough(grid) && xi < |grid[0]|
  {
    forall lni :: 0 <= lni < |grid| ==> grid[lni][xi] == Empty
  }

  /** For each column of the first row, whether it is empty. */
  function ColumnMarks(grid: Grid): (m: seq<bool>)
    requires WideEnough(grid)
    ensures |m| == |grid[0]| && forall i :: 0 <= i < |m| ==> m[i] == EmptyColumn(grid, i)
  {
    seq(|grid[0]|, (i: int) requires 0 <= i < |grid[0]| => EmptyColumn(grid, i))
  }

  /** The marks for one row: its columns among the empty ones. */
  function LineMarks(ln: seq<Tile>, emptyCols: set<nat>): (m: seq<bool>)
    ensures |m| == |ln| && forall i :: 0 <= i < |ln| ==> m[i] == (i in emptyCols)
  {
    seq(|ln|, (i: int) requires 0 <= i < |ln| => i in emptyCols)
  }

  /** `duplicate_empty_cols`: every row with its empty columns doubled, the
      empty columns being found among those of the first row. */
  function DuplicateEmptyCols(grid: Grid): (r: Grid)
    requires WideEnough(grid)
    ensures |r| == |grid|
  {
    var emptyCols := EmptyColumnSet(grid);
    seq(|grid|, (lni: int) requires 0 <= lni < |grid| => ExpandBy(grid[lni], LineMarks(grid[lni], emptyCols)))
  }

  /** The `HashSet` of the empty columns. */
  function EmptyColumnSet(grid: Grid): set<nat>
    requires WideEnough(grid)
  {
    set xi | 0 <= xi < |grid[0]| && ColumnMarks(grid)[xi]
  }

  /** Before the first row's width, the marks of every row are the column
      marks. */
  lemma LineMarksPrefix(grid: Grid, lni: nat, n: nat)
    requires WideEnough(grid) && lni < |grid| && n <= |grid[0]|
    ensures LineMarks(grid[lni], EmptyColumnSet(grid))[..n] == ColumnMarks(grid)[..n]
  {
  }

  /** Each row grows by the number of empty columns. */
  lemma DuplicateEmptyColsWidth(grid: Grid, lni: nat)
    requires WideEnough(grid) && lni < |grid|
    ensures |DuplicateEmptyCols(grid)[lni]| == |grid[lni]| + Count(ColumnMarks(grid))
  {
    var m := LineMarks(grid[lni], EmptyColumnSet(grid));
    var w := |grid[0]|;
    LineMarksPrefix(grid, lni, w);
    assert ColumnMarks(grid)[..w] == ColumnMarks(grid);
    assert m == m[..w] + m[w..];
    assert DuplicateEmptyCols(grid)[lni] == ExpandBy(grid[lni], m);
    CountAppend(ColumnMarks(grid), m[w..]);
    NoneMarked(m[w..]);
  }

  lemma {:induction false} NoneMarked(m: seq<bool>)
    requires forall i :: 0 <= i < |m| ==> !m[i]
    ensures Count(m) == 0
  {
    if m != [] {
      NoneMarked(m[1..]);
    }
  }

  // ------------------------------------------------- the empty indices

  /** The marked indices, offset by `k`, in increasing order. */
  function MarkedFrom(m: seq<bool>, k: nat): (r: seq<nat>)
    ensures |r| == Count(m)
  {
    if m == [] then [] else (if m[0] then [k] else []) + MarkedFrom(m[1..], k + 1)
  }

  /** `MarkedFrom` lists exactly the marked indices, in increasing order. */
  lemma MarkedFromSpec(m: seq<bool>, k: nat)
    ensures forall x: nat :: x in MarkedFrom(m, k) <==> k <= x < k + |m| && m[x - k]
    ensures forall a, b :: 0 <= a < b < |MarkedFrom(m, k)| ==> MarkedFrom(m, k)[a] < MarkedFrom(m, k)[b]
  {
    forall x: nat {
      MarkedFromMember(m, k, x);
    }
    MarkedFromIncreasing(m, k);
  }

  lemma {:induction false} MarkedFromMember(m: seq<bool>, k: nat, x: nat)
    ensures x in MarkedFrom(m, k) <==> k <= x < k + |m| && m[x - k]
  {
    if m != [] {
      MarkedFromMember(m[1..], k + 1, x);
      var rest := MarkedFrom(m[1..], k + 1);
      assert MarkedFrom(m, k) == (if m[0] then [k] else []) + rest;
      if k < x < k + |m| {
        assert m[x - k] == m[1..][x - (k + 1)];
      }
    }
  }

  lemma {:induction false} MarkedFromIncreasing(m: seq<bool>, k: nat)
    ensures Increasing(MarkedFrom(m, k))
  {
    if m != [] {
      MarkedFromIncreasing(m[1..], k + 1);
      var rest := MarkedFrom(m[1..], k + 1);
      if m[0] {
        MarkedFromAbove(m[1..], k + 1);
        IncreasingCons(k, rest);
      } else {
        assert MarkedFrom(m, k) == rest;
      }
    }
  }

  predicate Increasing(s: seq<nat>) {
    forall a, b :: 0 <= a < b < |s| ==> s[a] < s[b]
  }

  /** A value below every element of an increasing sequence may be put in
      front of it. */
  lemma IncreasingCons(k: nat, rest: seq<nat>)
    requires Increasing(rest) && forall i :: 0 <= i < |rest| ==> rest[i] >= k + 1
    ensures Increasing([k] + rest)
  {
    var r := [k] + rest;
    forall a, b | 0 <= a < b < |r| ensures r[a] < r[b] {
      assert r[b] == rest[b - 1];
      if a > 0 {
        assert r[a] == rest[a - 1];
      }
    }
  }

  /** Every index listed is at least the offset. */
  lemma MarkedFromAbove(m: seq<bool>, k: nat)
    ensures forall i :: 0 <= i < |MarkedFrom(m, k)| ==> MarkedFrom(m, k)[i] >= k
  {
    var r := MarkedFrom(m, k);
    forall i | 0 <= i < |r| ensures r[i] >= k {
      MarkedFromMember(m, k, r[i]);
    }
  }

  /** `find_empty_rows`. */
  function FindEmptyRows(grid: Grid): (r: seq<nat>)
    ensures |r| == Count(RowMarks(grid))
  {
    MarkedFrom(RowMarks(grid), 0)
  }

  /** `find_empty_cols`. */
  function FindEmptyCols(grid: Grid): (r: seq<nat>)
    requires WideEnough(grid)
    ensures |r| == Count(ColumnMarks(grid))
  {
    MarkedFrom(ColumnMarks(grid), 0)
  }

  /** The indices of exactly the empty rows, and of exactly the empty
      columns, each in increasing order. */
  lemma FindEmptySpec(grid: Grid)
    requires WideEnough(grid)
    ensures forall x: nat :: x in FindEmptyRows(grid) <==> x < |grid| && EmptyLine(grid[x])
    ensures forall a, b :: 0 <= a < b < |FindEmptyRows(grid)| ==> FindEmptyRows(grid)[a] < FindEmptyRows(grid)[b]
    ensures forall x: nat :: x in FindEmptyCols(grid) <==> x < |grid[0]| && EmptyColumn(grid, x)
    ensures forall a, b :: 0 <= a < b < |FindEmptyCols(grid)| ==> FindEmptyCols(grid)[a] < FindEmptyCols(grid)[b]
  {
    MarkedFromSpec(RowMarks(grid), 0);
    MarkedFromSpec(ColumnMarks(grid), 0);
  }

  /** Duplicating adds one row per empty row and one column per empty
      column. */
  lemma DuplicateAddsEmpty(grid: Grid, lni: nat)
    requires WideEnough(grid) && lni < |grid|
    ensures |DuplicateEmptyRows(grid)| == |grid| + |FindEmptyRows(grid)|
    ensures |DuplicateEmptyCols(grid)[lni]| == |grid[lni]| + |FindEmptyCols(grid)|
  {
    DuplicateEmptyColsWidth(grid, lni);
  }

  // ------------------------------------------- part 2's distance formula

  const EXPANSION_SIZE: nat := 1_000_000

  /** The number of entries of `e` in `[lo, hi]`. */
  function CountInRange(e: seq<nat>, lo: nat, hi: nat): (n: nat)
    ensures n <= |e|
  {
    if e == [] then 0 else (if lo <= e[0] <= hi then 1 else 0) + CountInRange(e[1..], lo, hi)
  }

  /** `manhattan_dist_expanded` with the expansion as a parameter: each
      empty row or column in the box between the positions adds
      `size - 1`. */
  function ManhattanDistExpandedBy(a: Pos, b: Pos, emptyRows: seq<nat>, emptyCols: seq<nat>, size: nat): (r: nat)
    requires size >= 1
    ensures r >= ManhattanDist(a, b)
  {
    var lo := Pos(Min(a.lni, b.lni), Min(a.xi, b.xi));
    var hi := Pos(Max(a.lni, b.lni), Max(a.xi, b.xi));
    var nExpanded := CountInRange(emptyCols, lo.xi, hi.xi) + CountInRange(emptyRows, lo.lni, hi.lni);
    ManhattanDist(a, b) + Scaled(nExpanded, size - 1)
  }

  /** `n * k`, kept apart so that the distance stays linear. */
  function Scaled(n: nat, k: nat): (r: nat)
    ensures k == 1 ==> r == n
  {
    n * k
  }

  function Min(a: nat, b: nat): nat { if a <= b then a else b }
  function Max(a: nat, b: nat): nat { if a >= b then a else b }

  /** `manhattan_dist_expanded` as the source uses it. */
  function ManhattanDistExpanded(a: Pos, b: Pos, emptyRows: seq<nat>, emptyCols: seq<nat>): (r: nat)
    ensures r >= ManhattanDist(a, b)
  {
    ManhattanDistExpandedBy(a, b, emptyRows, emptyCols, EXPANSION_SIZE)
  }

  /** The expanded distance is symmetric, and equals the plain distance when
      no empty row or column lies between the positions. */
  lemma ExpandedSymmetric(a: Pos, b: Pos, emptyRows: seq<nat>, emptyCols: seq<nat>)
    ensures ManhattanDistExpanded(a, b, emptyRows, emptyCols) == ManhattanDistExpanded(b, a, emptyRows, emptyCols)
    ensures emptyRows == [] && emptyCols == [] ==> ManhattanDistExpanded(a, b, emptyRows, emptyCols) == ManhattanDist(a, b)
  {
    ManhattanMetric(a, b, b);
  }

  // ------------------------------------- agreement of the two approaches

  /** The entries of `e` below `x`. */
  function CountBelow(e: seq<nat>, x: nat): (n: nat)
    ensures n <= |e|
  {
    if e == [] then 0 else (if e[0] < x then 1 else 0) + CountBelow(e[1..], x)
  }

  /** Between two coordinates, the entries below the upper one and not below
      the lower one are those in the range, unless the upper one is itself an
      entry. */
  lemma {:induction false} CountBelowDifference(e: seq<nat>, lo: nat, hi: nat)
    requires lo <= hi && hi !in e
    ensures CountBelow(e, hi) == CountBelow(e, lo) + CountInRange(e, lo, hi)
  {
    if e != [] {
      CountBelowDifference(e[1..], lo, hi);
    }
  }

  /** The copies added before index `i + k` by `MarkedFrom(m, k)` are the
      marked entries before `i`. */
  lemma {:induction false} CountBelowMarked(m: seq<bool>, k: nat, i: nat)
    requires i <= |m|
    ensures CountBelow(MarkedFrom(m, k), k + i) == Count(m[..i])
  {
    if m == [] {
    } else if i == 0 {
      MarkedFromSpec(m, k);
      NoneBelow(MarkedFrom(m, k), k);
    } else {
      CountBelowMarked(m[1..], k + 1, i - 1);
      LandingStep(m, i);
      var rest := MarkedFrom(m[1..], k + 1);
      if m[0] {
        assert MarkedFrom(m, k) == [k] + rest;
        assert ([k] + rest)[1..] == rest;
      } else {
        assert MarkedFrom(m, k) == rest;
      }
    }
  }

  lemma {:induction false} NoneBelow(e: seq<nat>, x: nat)
    requires forall y :: y in e ==> y >= x
    ensures CountBelow(e, x) == 0
  {
    if e != [] {
      assert e[0] in e;
      assert forall y :: y in e[1..] ==> y in e;
      NoneBelow(e[1..], x);
    }
  }

  /** A row or column with a galaxy is not empty. */
  predicate IsGalaxy(grid: Grid, p: Pos) {
    p.lni < |grid| && p.xi < |grid[p.lni]| && grid[p.lni][p.xi] == Galaxy
  }

  /** Where a position of the grid lands after part 1's duplication. */
  function Image(grid: Grid, p: Pos): Pos
    requires WideEnough(grid)
  {
    Shift(p, FindEmptyRows(grid), FindEmptyCols(grid))
  }

  /** Part 2's formula with an expansion of 2 is the plain distance between
      the images of two galaxies in part 1's duplicated grid. */
  lemma ExpandedIsImageDistance(grid: Grid, a: Pos, b: Pos)
    requires WideEnough(grid) && a.xi < |grid[0]| && b.xi < |grid[0]|
    requires IsGalaxy(grid, a) && IsGalaxy(grid, b)
    ensures ManhattanDist(Image(grid, a), Image(grid, b))
         == ManhattanDistExpandedBy(a, b, FindEmptyRows(grid), FindEmptyCols(grid), 2)
  {
    GalaxyNotEmpty(grid, a);
    GalaxyNotEmpty(grid, b);
    ShiftDistance(FindEmptyRows(grid), FindEmptyCols(grid), a, b);
  }

  /** A coordinate moved past the entries of `e` below it. */
  function ShiftCoord(e: seq<nat>, x: nat): nat {
    x + CountBelow(e, x)
  }

  /** A position moved past the entries of `er` below its row and of `ec`
      below its column. */
  function Shift(p: Pos, er: seq<nat>, ec: seq<nat>): Pos {
    Pos(ShiftCoord(er, p.lni), ShiftCoord(ec, p.xi))
  }

  /** Shifting both positions adds, to their distance, the entries between
      their coordinates. */
  lemma ShiftDistance(er: seq<nat>, ec: seq<nat>, a: Pos, b: Pos)
    requires a.lni !in er && b.lni !in er && a.xi !in ec && b.xi !in ec
    ensures ManhattanDist(Shift(a, er, ec), Shift(b, er, ec)) == ManhattanDistExpandedBy(a, b, er, ec, 2)
  {
    var rows := AxisShift(er, a.lni, b.lni);
    var cols := AxisShift(ec, a.xi, b.xi);
    ExpandedByTwo(a, b, er, ec);
  }

  /** Along one axis: the shifted coordinates differ by the distance plus
      the entries in the closed range between the two coordinates. */
  lemma AxisShift(e: seq<nat>, x: nat, y: nat) returns (n: nat)
    requires x !in e && y !in e
    ensures n == CountInRange(e, Min(x, y), Max(x, y))
    ensures AbsDiff(ShiftCoord(e, x), ShiftCoord(e, y)) == AbsDiff(x, y) + n
  {
    n := CountInRange(e, Min(x, y), Max(x, y));
    if x <= y {
      CountBelowDifference(e, x, y);
    } else {
      CountBelowDifference(e, y, x);
    }
  }

  /** The row and the column of a galaxy are not empty. */
  lemma GalaxyNotEmpty(grid: Grid, p: Pos)
    requires WideEnough(grid) && p.xi < |grid[0]| && IsGalaxy(grid, p)
    ensures p.lni !in FindEmptyRows(grid) && p.xi !in FindEmptyCols(grid)
  {
    FindEmptySpec(grid);
    assert !EmptyLine(grid[p.lni]);
    assert !EmptyColumn(grid, p.xi);
  }

  lemma ExpandedByTwo(a: Pos, b: Pos, emptyRows: seq<nat>, emptyCols: seq<nat>)
    ensures ManhattanDistExpandedBy(a, b, emptyRows, emptyCols, 2)
         == ManhattanDist(a, b) + CountInRange(emptyRows, Min(a.lni, b.lni), Max(a.lni, b.lni))
                                + CountInRange(emptyCols, Min(a.xi, b.xi), Max(a.xi, b.xi))
  {
  }

  /** The duplicated grid holds at the image of every position of the
      original the same tile. */
  lemma DuplicatedTile(grid: Grid, p: Pos)
    requires WideEnough(grid) && p.lni < |grid| && p.xi < |grid[0]|
    ensures WideEnough(DuplicateEmptyRows(grid))
    ensures Image(grid, p).lni < |DuplicateEmptyCols(DuplicateEmptyRows(grid))|
    ensures Image(grid, p).xi < |DuplicateEmptyCols(DuplicateEmptyRows(grid))[Image(grid, p).lni]|
    ensures DuplicateEmptyCols(DuplicateEmptyRows(grid))[Image(grid, p).lni][Image(grid, p).xi] == grid[p.lni][p.xi]
  {
    var rows := DuplicateEmptyRows(grid);
    DuplicateRowsSpec(grid, p.lni);
    RowImage(grid, p.lni);
    RowsWideEnough(grid);
    SameColumns(grid, rows);
    var li := Image(grid, p).lni;
    assert FindEmptyCols(rows) == FindEmptyCols(grid);
    ColImage(rows, li, p.xi);
  }

  /** Row `lni` of the original is the row at its image. */
  lemma RowImage(grid: Grid, lni: nat)
    requires lni < |grid|
    ensures ShiftCoord(FindEmptyRows(grid), lni) < |DuplicateEmptyRows(grid)|
    ensures DuplicateEmptyRows(grid)[ShiftCoord(FindEmptyRows(grid), lni)] == grid[lni]
  {
    DuplicateRowsSpec(grid, lni);
    CountBelowMarked(RowMarks(grid), 0, lni);
    assert Landing(RowMarks(grid), lni) == ShiftCoord(FindEmptyRows(grid), lni);
  }

  /** Within one row, column `xi` of the original is the column at its
      image. */
  lemma ColImage(grid: Grid, lni: nat, xi: nat)
    requires WideEnough(grid) && lni < |grid| && xi < |grid[0]|
    ensures ShiftCoord(FindEmptyCols(grid), xi) < |DuplicateEmptyCols(grid)[lni]|
    ensures DuplicateEmptyCols(grid)[lni][ShiftCoord(FindEmptyCols(grid), xi)] == grid[lni][xi]
  {
    var lm := LineMarks(grid[lni], EmptyColumnSet(grid));
    assert DuplicateEmptyCols(grid)[lni] == ExpandBy(grid[lni], lm);
    ExpandByIndex(grid[lni], lm, xi);
    LineMarksPrefix(grid, lni, xi);
    CountBelowMarked(ColumnMarks(grid), 0, xi);
    assert Landing(lm, xi) == ShiftCoord(FindEmptyCols(grid), xi);
  }

  /** Duplicating rows keeps the grid's width. */
  lemma RowsWideEnough(grid: Grid)
    requires WideEnough(grid)
    ensures WideEnough(DuplicateEmptyRows(grid)) && |DuplicateEmptyRows(grid)[0]| == |grid[0]|
  {
    var rows := DuplicateEmptyRows(grid);
    DuplicateRowsSpec(grid, 0);
    assert rows[0] in grid && grid[0] in rows;
    assert |rows[0]| == |grid[0]| by {
      var i :| 0 <= i < |grid| && grid[i] == rows[0];
      var j :| 0 <= j < |rows| && rows[j] == grid[0];
    }
    forall i | 0 <= i < |rows| ensures |rows[i]| >= |rows[0]| {
      assert rows[i] in grid;
    }
  }

  /** Duplicating rows does not change which columns are empty. */
  lemma SameColumns(grid: Grid, rows: Grid)
    requires WideEnough(grid) && WideEnough(rows) && |rows[0]| == |grid[0]|
    requires forall ln :: ln in rows <==> ln in grid
    ensures ColumnMarks(rows) == ColumnMarks(grid)
  {
    forall xi | 0 <= xi < |grid[0]| ensures EmptyColumn(rows, xi) == EmptyColumn(grid, xi) {
      if EmptyColumn(grid, xi) {
        forall lni | 0 <= lni < |rows| ensures rows[lni][xi] == Empty {
          assert rows[lni] in grid;
        }
      } else {
        var lni :| 0 <= lni < |grid| && grid[lni][xi] != Empty;
        assert grid[lni] in rows;
      }
    }
  }

  // ------------------------------------------------------------ answers

  /** The galaxies of one row from column `xi` on, in order. */
  function RowGalaxies(ln: seq<Tile>, lni: nat, xi: nat): (r: seq<Pos>)
    requires xi <= |ln|
    ensures forall p :: p in r <==> p.lni == lni && xi <= p.xi < |ln| && ln[p.xi] == Galaxy
    decreases |ln| - xi
  {
    if xi == |ln| then []
    else (if ln[xi] == Galaxy then [Pos(lni, xi)] else []) + RowGalaxies(ln, lni, xi + 1)
  }

  /** The galaxies of the rows from `lni` on, in row-major order. */
  function GalaxyPositions(grid: Grid, lni: nat): (r: seq<Pos>)
    requires lni <= |grid|
    ensures forall p :: p in r <==> lni <= p.lni && IsGalaxy(grid, p)
    decreases |grid| - lni
  {
    if lni == |grid| then []
    else RowGalaxies(grid[lni], lni, 0) + GalaxyPositions(grid, lni + 1)
  }

  /** The sum of `dist` over every ordered pair of positions. */
  function PairSum(ps: seq<Pos>, qs: seq<Pos>, dist: (Pos, Pos) -> nat): nat {
    if ps == [] then 0 else RowSum(ps[0], qs, dist) + PairSum(ps[1..], qs, dist)
  }

  function RowSum(p: Pos, qs: seq<Pos>, dist: (Pos, Pos) -> nat): nat {
    if qs == [] then 0 else dist(p, qs[0]) + RowSum(p, qs[1..], dist)
  }

  /** Part 1's grid: empty rows, then empty columns, duplicated. */
  function Duplicated(grid: Grid): Grid
    requires WideEnough(grid)
  {
    RowsWideEnough(grid);
    DuplicateEmptyCols(DuplicateEmptyRows(grid))
  }

  /** Part 1: half the sum over ordered pairs of galaxies in the duplicated
      grid, which is the sum of the distances over unordered pairs. */
  function Part1(grid: Grid): (r: nat)
    requires WideEnough(grid)
    ensures r == UnorderedSum(GalaxyPositions(Duplicated(grid), 0), ManhattanDist)
  {
    var ps := GalaxyPositions(Duplicated(grid), 0);
    forall p, q ensures ManhattanDist(p, q) == ManhattanDist(q, p) {
      ManhattanMetric(p, q, q);
    }
    PairSumTwice(ps, ManhattanDist);
    PairSum(ps, ps, ManhattanDist) / 2
  }

  /** Part 2's distance for the empty rows `er` and columns `ec`. */
  function Expanded(er: seq<nat>, ec: seq<nat>): (Pos, Pos) -> nat {
    (a: Pos, b: Pos) => ManhattanDistExpanded(a, b, er, ec)
  }

  /** Part 2: half the sum over ordered pairs of the expanded distances,
      which is the sum over unordered pairs, and at least the same sum
      without expansion. */
  function Part2(grid: Grid): (r: nat)
    requires WideEnough(grid)
    ensures r == UnorderedSum(GalaxyPositions(grid, 0), Expanded(FindEmptyRows(grid), FindEmptyCols(grid)))
    ensures r >= PairSum(GalaxyPositions(grid, 0), GalaxyPositions(grid, 0), ManhattanDist) / 2
  {
    var ps := GalaxyPositions(grid, 0);
    var er := FindEmptyRows(grid);
    var ec := FindEmptyCols(grid);
    var expanded := Expanded(er, ec);
    PairSumMonotone(ps, ps, ManhattanDist, expanded);
    forall p, q ensures expanded(p, q) == expanded(q, p) {
      ExpandedSymmetric(p, q, er, ec);
    }
    forall p | p in ps ensures expanded(p, p) == 0 {
      ExpandedDiagonal(grid, p);
    }
    PairSumTwice(ps, expanded);
    PairSum(ps, ps, expanded) / 2
  }

  /** A galaxy is at distance 0 from itself after expansion: its row and
      its column are not empty. */
  lemma ExpandedDiagonal(grid: Grid, p: Pos)
    requires WideEnough(grid) && IsGalaxy(grid, p)
    ensures ManhattanDistExpanded(p, p, FindEmptyRows(grid), FindEmptyCols(grid)) == 0
  {
    FindEmptySpec(grid);
    assert grid[p.lni][p.xi] == Galaxy;
    if p.xi < |grid[0]| {
      GalaxyNotEmpty(grid, p);
    }
    CountInRangeAbsent(FindEmptyRows(grid), p.lni);
    CountInRangeAbsent(FindEmptyCols(grid), p.xi);
  }

  lemma {:induction false} CountInRangeAbsent(e: seq<nat>, x: nat)
    requires x !in e
    ensures CountInRange(e, x, x) == 0
  {
    if e != [] {
      CountInRangeAbsent(e[1..], x);
    }
  }

  /** The sum of `dist` over the pairs `(ps[i], ps[j])` with `i < j`. */
  function UnorderedSum(ps: seq<Pos>, dist: (Pos, Pos) -> nat): nat {
    if ps == [] then 0 else RowSum(ps[0], ps[1..], dist) + UnorderedSum(ps[1..], dist)
  }

  /** For a symmetric distance that is 0 from each position to itself, the
      sum over ordered pairs is twice the sum over unordered pairs, so
      halving it is exact. */
  lemma {:induction false} PairSumTwice(ps: seq<Pos>, dist: (Pos, Pos) -> nat)
    requires forall p, q :: dist(p, q) == dist(q, p)
    requires forall p :: p in ps ==> dist(p, p) == 0
    ensures PairSum(ps, ps, dist) == 2 * UnorderedSum(ps, dist)
  {
    if ps != [] {
      var h, t := ps[0], ps[1..];
      assert ps == [h] + t;
      PairSumTwice(t, dist);
      PairSumSplitRight(t, [h], t, dist);
      PairSumSingle(t, h, dist);
      assert RowSum(h, ps, dist) == dist(h, h) + RowSum(h, t, dist);
    }
  }

  lemma {:induction false} RowSumAppend(p: Pos, a: seq<Pos>, b: seq<Pos>, dist: (Pos, Pos) -> nat)
    ensures RowSum(p, a + b, dist) == RowSum(p, a, dist) + RowSum(p, b, dist)
  {
    if a != [] {
      assert (a + b)[1..] == a[1..] + b;
      RowSumAppend(p, a[1..], b, dist);
    } else {
      assert a + b == b;
    }
  }

  lemma {:induction false} PairSumSplitRight(ps: seq<Pos>, a: seq<Pos>, b: seq<Pos>, dist: (Pos, Pos) -> nat)
    ensures PairSum(ps, a + b, dist) == PairSum(ps, a, dist) + PairSum(ps, b, dist)
  {
    if ps != [] {
      RowSumAppend(ps[0], a, b, dist);
      PairSumSplitRight(ps[1..], a, b, dist);
    }
  }

  lemma {:induction false} PairSumSingle(ps: seq<Pos>, q: Pos, dist: (Pos, Pos) -> nat)
    requires forall p, q :: dist(p, q) == dist(q, p)
    ensures PairSum(ps, [q], dist) == RowSum(q, ps, dist)
  {
    if ps != [] {
      PairSumSingle(ps[1..], q, dist);
      assert [q][1..] == [];
      assert RowSum(ps[0], [q], dist) == dist(ps[0], q);
      assert dist(ps[0], q) == dist(q, ps[0]);
    }
  }

  /** A pointwise larger distance gives a larger sum. */
  lemma {:induction false} PairSumMonotone(ps: seq<Pos>, qs: seq<Pos>, f: (Pos, Pos) -> nat, g: (Pos, Pos) -> nat)
    requires forall p, q :: f(p, q) <= g(p, q)
    ensures PairSum(ps, qs, f) <= PairSum(ps, qs, g)
  {
    if ps != [] {
      RowSumMonotone(ps[0], qs, f, g);
      PairSumMonotone(ps[1..], qs, f, g);
    }
  }

  lemma {:induction false} RowSumMonotone(p: Pos, qs: seq<Pos>, f: (Pos, Pos) -> nat, g: (Pos, Pos) -> nat)
    requires forall p, q :: f(p, q) <= g(p, q)
    ensures RowSum(p, qs, f) <= RowSum(p, qs, g)
  {
    if qs != [] {
      RowSumMonotone(p, qs[1..], f, g);
    }
  }
}
