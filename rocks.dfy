/** problem_14: round rocks rolling north on a platform. The grid is turned
    into columns read from north to south; in each column the round rocks
    roll towards index 0 until they meet a cube rock or another round rock,
    and the load counts every round rock by its distance from the south
    edge. */
module Rocks {
  import opened Wrappers

  datatype Tile = Empty | Stationary | Moving

  /** `Tile::from_char`; `None` is the panic on any other character. */
  function FromChar(c: char): (r: Option<Tile>)
    ensures r.Some? <==> c == '.' || c == '#' || c == 'O'
    ensures r == Some(Moving) <==> c == 'O'
    ensures r == Some(Stationary) <==> c == '#'
  {
    match c
    case '.' => Some(Empty)
    case '#' => Some(Stationary)
    case 'O' => Some(Moving)
    case _ => None
  }

  /** `Tile::weight`: only a round rock weighs anything. */
  function Weight(t: Tile): (w: nat)
    ensures w <= 1
    ensures w == 1 <==> t == Moving
  {
    match t
    case Empty => 0
    case Stationary => 0
    case Moving => 1
  }

  /** `parse_lines`. */
  function ParseLines(lines: seq<string>): (r: Option<seq<seq<Tile>>>)
    ensures r.Some? <==> forall i, k :: 0 <= i < |lines| && 0 <= k < |lines[i]| ==> FromChar(lines[i][k]).Some?
    ensures r.Some? ==> |r.value| == |lines| && forall i :: 0 <= i < |lines| ==> |r.value[i]| == |lines[i]|
    ensures r.Some? ==> forall i, k :: 0 <= i < |lines| && 0 <= k < |lines[i]| ==> FromChar(lines[i][k]) == Some(r.value[i][k])
  {
    var r := MapAll(lines, (line: string) => MapAll(line, FromChar));
    assert r.Some? <==> forall i :: 0 <= i < |lines| ==> MapAll(lines[i], FromChar).Some?;
    assert r.Some? ==> forall i :: 0 <= i < |lines| ==> MapAll(lines[i], FromChar) == Some(r.value[i]);
    r
  }

  /** `grid_to_columns`: column `j` of the first row's width becomes row `j`;
      an empty grid or a row shorter than the first would panic. */
  function GridToColumns(grid: seq<seq<Tile>>): (cols: seq<seq<Tile>>)
    requires |grid| >= 1 && forall i :: 0 <= i < |grid| ==> |grid[i]| >= |grid[0]|
    ensures |cols| == |grid[0]|
    ensures forall j :: 0 <= j < |cols| ==> |cols[j]| == |grid|
    ensures forall j, i :: 0 <= j < |cols| && 0 <= i < |grid| ==> cols[j][i] == grid[i][j]
  {
    seq(|grid[0]|, (j: int) requires 0 <= j < |grid[0]| => seq(|grid|, (i: int) requires 0 <= i < |grid| => grid[i][j]))
  }

  /** The number of round rocks in a column. */
  function MovingCount(s: seq<Tile>): nat {
    multiset(s)[Moving]
  }

  /** A cube rock lies strictly between positions `a` and `b`. */
  predicate StationaryBetween(s: seq<Tile>, a: int, b: int)
    requires 0 <= a <= b <= |s|
  {
    exists k :: a < k < b && s[k] == Stationary
  }

  /** No empty space lies north of a round rock unless a cube rock is between
      them: the round rocks are packed at the start of each segment. */
  predicate Packed(s: seq<Tile>) {
    forall a, b :: 0 <= a < b < |s| && s[a] == Empty && s[b] == Moving ==> StationaryBetween(s, a, b)
  }

  /** The first `k` tiles of `r` and of `col` hold as many round rocks. */
  predicate SegmentKept(r: seq<Tile>, col: seq<Tile>, k: nat)
    requires k <= |r| && k <= |col|
  {
    MovingCount(r[..k]) == MovingCount(col[..k])
  }

  /** `r` is what `col` becomes when its round rocks roll to the start: same
      length, cube rocks where they were, round rocks packed, and every
      segment before a cube rock keeps its number of round rocks. */
  predicate FallenFrom(col: seq<Tile>, r: seq<Tile>) {
    && |r| == |col|
    && (forall i :: 0 <= i < |col| ==> (r[i] == Stationary <==> col[i] == Stationary))
    && Packed(r)
    && MovingCount(r) == MovingCount(col)
    && (forall k {:trigger SegmentKept(r, col, k)} :: 0 <= k < |col| && col[k] == Stationary ==> SegmentKept(r, col, k))
  }

  /** `Vec::resize(n, Empty)`: truncates to `n` tiles, or pads with empty
      space up to `n`. */
  function Resize(s: seq<Tile>, n: nat): (r: seq<Tile>)
    ensures |r| == n
    ensures n <= |s| ==> r == s[..n]
    ensures |s| <= n ==> r[..|s|] == s && MovingCount(r) == MovingCount(s)
    ensures forall k :: |s| <= k < n ==> r[k] == Empty
  {
    if n <= |s| then
      assert n == |s| ==> s[..n] == s;
      s[..n]
    else
      var pad := seq(n - |s|, _ => Empty);
      assert multiset(pad)[Moving] == 0 by {
        assert Moving !in pad;
      }
      assert (s + pad)[..|s|] == s;
      s + pad
  }

  /** What holds of the accumulator of `fall_to_start` once the first `i`
      tiles are folded in: it is no longer than `i` (so the resize before a
      cube rock never truncates), it does not end in empty space (so the
      `assert_ne!` before a round rock holds), its cube rocks are those of
      the input, none follows in the input, and it is packed with the
      segment counts of the input. */
  predicate FoldInv(col: seq<Tile>, i: nat, out: seq<Tile>) {
    && i <= |col| && |out| <= i
    && (|out| == 0 || out[|out| - 1] != Empty)
    && (forall p :: 0 <= p < |out| ==> (out[p] == Stationary <==> col[p] == Stationary))
    && (forall p :: |out| <= p < i ==> col[p] != Stationary)
    && Packed(out)
    && MovingCount(out) == MovingCount(col[..i])
    && (forall k {:trigger SegmentKept(out, col, k)} :: 0 <= k < |out| && col[k] == Stationary ==> SegmentKept(out, col, k))
  }

  lemma StepEmpty(col: seq<Tile>, i: nat, out: seq<Tile>)
    requires FoldInv(col, i, out) && i < |col| && col[i] == Empty
    ensures FoldInv(col, i + 1, out)
  {
    assert col[..i + 1] == col[..i] + [col[i]];
  }

  lemma StepMoving(col: seq<Tile>, i: nat, out: seq<Tile>)
    requires FoldInv(col, i, out) && i < |col| && col[i] == Moving
    ensures FoldInv(col, i + 1, out + [Moving])
  {
    assert col[..i + 1] == col[..i] + [col[i]];
    PushMoving(out);
    var t := out + [Moving];
    forall k | 0 <= k < |t| && col[k] == Stationary ensures SegmentKept(t, col, k) {
      assert k < |out| && SegmentKept(out, col, k);
      assert t[..k] == out[..k];
    }
  }

  lemma StepStationary(col: seq<Tile>, i: nat, out: seq<Tile>)
    requires FoldInv(col, i, out) && i < |col| && col[i] == Stationary
    ensures FoldInv(col, i + 1, Resize(out, i) + [Stationary])
  {
    assert col[..i + 1] == col[..i] + [col[i]];
    ResizePacked(out, i);
    var padded := Resize(out, i);
    var t := padded + [Stationary];
    assert t[..i] == padded;
    assert MovingCount(t) == MovingCount(col[..i + 1]);
    forall p | 0 <= p < |t| ensures t[p] == Stationary <==> col[p] == Stationary {
      if p < |out| {
        assert t[p] == out[p];
      } else if p < i {
        assert t[p] == Empty;
      }
    }
    forall k | 0 <= k < |t| && col[k] == Stationary ensures SegmentKept(t, col, k) {
      if k == i {
        assert MovingCount(t[..k]) == MovingCount(out);
      } else {
        assert k < |out| && SegmentKept(out, col, k);
        assert t[..k] == out[..k];
      }
    }
  }

  lemma FoldDone(col: seq<Tile>, out: seq<Tile>)
    requires FoldInv(col, |col|, out)
    ensures FallenFrom(col, Resize(out, |col|))
  {
    assert col[..|col|] == col;
    ResizePacked(out, |col|);
    var r := Resize(out, |col|);
    forall k | 0 <= k < |col| && col[k] == Stationary ensures SegmentKept(r, col, k) {
      assert k < |out| && SegmentKept(out, col, k);
      assert r[..k] == out[..k];
    }
  }

  /** The closure of the fold in `fall_to_start`, given the accumulator and
      tile `i`: empty space is dropped, a round rock is pushed, and a cube
      rock is pushed at index `i` after resizing with the empty space the
      rocks fell out of. The two assertions of the source are left out here;
      `FoldAssertions` shows that they always hold. */
  function FoldStep(prev: seq<Tile>, i: nat, tile: Tile): seq<Tile> {
    match tile
    case Empty => prev
    case Moving => prev + [Moving]
    case Stationary => Resize(prev, i) + [Stationary]
  }

  /** The accumulator once the first `n` tiles are folded in. */
  function FoldFall(col: seq<Tile>, n: nat): seq<Tile>
    requires n <= |col|
  {
    if n == 0 then [] else FoldStep(FoldFall(col, n - 1), n - 1, col[n - 1])
  }

  /** One step of the fold keeps its invariant. */
  lemma FoldStepInv(col: seq<Tile>, i: nat, out: seq<Tile>)
    requires FoldInv(col, i, out) && i < |col|
    ensures FoldInv(col, i + 1, FoldStep(out, i, col[i]))
  {
    match col[i]
    case Empty => StepEmpty(col, i, out);
    case Moving => StepMoving(col, i, out);
    case Stationary => StepStationary(col, i, out);
  }

  lemma {:induction false} FoldFallInv(col: seq<Tile>, n: nat)
    requires n <= |col|
    ensures FoldInv(col, n, FoldFall(col, n))
  {
    if n > 0 {
      var prev := FoldFall(col, n - 1);
      FoldFallInv(col, n - 1);
      FoldStepInv(col, n - 1, prev);
      assert FoldFall(col, n) == FoldStep(prev, n - 1, col[n - 1]);
    }
  }

  /** The assertions of `fall_to_start` hold: no round rock is pushed after
      empty space, the resize before a cube rock never truncates, and the
      cube rock lands at its own index. */
  lemma FoldAssertions(col: seq<Tile>, i: nat)
    requires i < |col|
    ensures col[i] == Moving ==> |FoldFall(col, i)| == 0 || FoldFall(col, i)[|FoldFall(col, i)| - 1] != Empty
    ensures col[i] == Stationary ==> |FoldFall(col, i)| <= i
    ensures col[i] == Stationary ==> |FoldFall(col, i + 1)| == i + 1
  {
    FoldFallInv(col, i);
  }

  /** What `fall_to_start` returns: the column with its round rocks rolled
      to its start. */
  function FallToStartSpec(col: seq<Tile>): (r: seq<Tile>)
    ensures FallenFrom(col, r)
  {
    FoldFallInv(col, |col|);
    FoldDone(col, FoldFall(col, |col|));
    Resize(FoldFall(col, |col|), |col|)
  }

  /** `fall_to_start`: folds the tiles into the accumulator, then resizes it
      to the column's length. */
  method FallToStart(col: seq<Tile>) returns (r: seq<Tile>)
    ensures r == FallToStartSpec(col)
  {
    var out: seq<Tile> := [];
    var i: nat := 0;
    while i < |col|
      invariant i <= |col| && out == FoldFall(col, i)
      decreases |col| - i
    {
      FoldAssertions(col, i);
      match col[i] {
        case Empty =>
        case Moving =>
          assert |out| == 0 || out[|out| - 1] != Empty;
          out := out + [Moving];
        case Stationary =>
          assert |out| <= i;
          out := Resize(out, i);
          out := out + [Stationary];
          assert |out| == i + 1;
      }
      i := i + 1;
    }
    r := Resize(out, |col|);
  }

  /** Pushing a round rock after anything but empty space keeps the column
      packed and leaves every earlier prefix alone. */
  lemma PushMoving(out: seq<Tile>)
    requires Packed(out) && (|out| == 0 || out[|out| - 1] != Empty)
    ensures Packed(out + [Moving])
    ensures forall k :: 0 <= k <= |out| ==> (out + [Moving])[..k] == out[..k]
    ensures MovingCount(out + [Moving]) == MovingCount(out) + 1
  {
    var s := out + [Moving];
    forall a, b | 0 <= a < b < |s| && s[a] == Empty && s[b] == Moving ensures StationaryBetween(s, a, b) {
      if b < |out| {
        var k :| a < k < b && out[k] == Stationary;
        assert s[k] == Stationary;
      } else if out[|out| - 1] == Stationary {
        assert s[|out| - 1] == Stationary;
      } else {
        var k :| a < k < |out| - 1 && out[k] == Stationary;
        assert s[k] == Stationary;
      }
    }
  }

  /** Padding with empty space keeps a column packed, also when a cube rock
      follows, and leaves its prefixes alone. */
  lemma ResizePacked(out: seq<Tile>, n: nat)
    requires Packed(out) && |out| <= n
    ensures Packed(Resize(out, n)) && Packed(Resize(out, n) + [Stationary])
    ensures forall k :: 0 <= k <= |out| ==> Resize(out, n)[..k] == out[..k] && (Resize(out, n) + [Stationary])[..k] == out[..k]
    ensures MovingCount(Resize(out, n) + [Stationary]) == MovingCount(out)
  {
    var s := Resize(out, n);
    assert forall k :: 0 <= k < |out| ==> s[k] == out[k];
    forall a, b | 0 <= a < b < |s| && s[a] == Empty && s[b] == Moving ensures StationaryBetween(s, a, b) {
      assert b < |out| && out[a] == Empty && out[b] == Moving;
      var k :| a < k < b && out[k] == Stationary;
      assert s[k] == Stationary;
    }
    CubeKeepsPacked(s);
    forall k | 0 <= k <= |out| ensures s[..k] == out[..k] && (s + [Stationary])[..k] == out[..k] {
      assert s[..k] == s[..|out|][..k];
      assert (s + [Stationary])[..k] == s[..k];
    }
    assert multiset(s + [Stationary])[Moving] == multiset(s)[Moving];
  }

  /** A cube rock after a packed column keeps it packed. */
  lemma CubeKeepsPacked(s: seq<Tile>)
    requires Packed(s)
    ensures Packed(s + [Stationary])
  {
    var t := s + [Stationary];
    forall a, b | 0 <= a < b < |t| && t[a] == Empty && t[b] == Moving ensures StationaryBetween(t, a, b) {
      assert b < |s| && s[a] == Empty && s[b] == Moving;
      var k :| a < k < b && s[k] == Stationary;
      assert t[k] == Stationary;
    }
  }

  /** `fall_north`: every column falls on its own. */
  method FallNorth(cols: seq<seq<Tile>>) returns (r: seq<seq<Tile>>)
    ensures |r| == |cols|
    ensures forall j :: 0 <= j < |cols| ==> r[j] == FallToStartSpec(cols[j])
  {
    r := [];
    var j := 0;
    while j < |cols|
      invariant j <= |cols| && |r| == j
      invariant forall m :: 0 <= m < j ==> r[m] == FallToStartSpec(cols[m])
    {
      var fallen := FallToStart(cols[j]);
      r := r + [fallen];
      j := j + 1;
    }
  }

  /** The weight of a tile at height `h` above the south edge. */
  function Weighted(h: nat, t: Tile): (r: nat)
    ensures t == Moving ==> r == h
    ensures t != Moving ==> r == 0
  {
    h * Weight(t)
  }

  /** `get_load_col`: a tile at index `i` of a column of height `h` weighs
      `(h - i) * weight`; every round rock weighs at least 1, and a column
      without round rocks weighs nothing. */
  function LoadCol(col: seq<Tile>): (r: nat)
    ensures r >= MovingCount(col)
    ensures MovingCount(col) == 0 ==> r == 0
  {
    if col == [] then 0
    else
      assert col == [col[0]] + col[1..];
      Weighted(|col|, col[0]) + LoadCol(col[1..])
  }

  // Two arithmetic helpers for the load proofs below.

  lemma Distrib(a: nat, b: nat, c: nat)
    ensures a * (b + c) == a * b + a * c
  {
  }

  lemma MulMono(a: nat, b: nat, c: nat)
    requires a <= b
    ensures a * c <= b * c
  {
  }

  /** The load of the tiles from index `i` on, each weighed by its distance
      `|col| - i` from the south edge, as `get_load_col` enumerates them. */
  function LoadFrom(col: seq<Tile>, i: nat): (r: nat)
    requires i <= |col|
    ensures r == LoadCol(col[i..])
    decreases |col| - i
  {
    if i == |col| then 0
    else
      assert col[i..][1..] == col[i + 1..];
      Weighted(|col| - i, col[i]) + LoadFrom(col, i + 1)
  }

  /** `LoadCol` is the enumerated sum of `get_load_col`. */
  lemma LoadColIndexed(col: seq<Tile>)
    ensures LoadCol(col) == LoadFrom(col, 0)
  {
    assert col[0..] == col;
  }

  /** A column weighs at most its height per round rock. */
  lemma {:induction false} LoadColBound(col: seq<Tile>)
    ensures LoadCol(col) <= |col| * MovingCount(col)
  {
    if col != [] {
      var tail := col[1..];
      assert col == [col[0]] + tail;
      var w := if col[0] == Moving then 1 else 0;
      assert MovingCount(col) == w + MovingCount(tail);
      LoadColBound(tail);
      Distrib(|col|, w, MovingCount(tail));
      assert |col| * w == Weighted(|col|, col[0]);
      MulMono(|tail|, |col|, MovingCount(tail));
    }
  }

  /** `get_load`: the loads of all columns added up. */
  function GetLoad(cols: seq<seq<Tile>>): (r: nat)
    ensures r == 0 <==> forall j :: 0 <= j < |cols| ==> MovingCount(cols[j]) == 0
  {
    if cols == [] then 0
    else
      assert forall j :: 1 <= j < |cols| ==> cols[j] == cols[1..][j - 1];
      LoadCol(cols[0]) + GetLoad(cols[1..])
  }

  /** The part 1 pipeline after parsing: columns, falling, load. */
  method NorthLoad(grid: seq<seq<Tile>>) returns (fallen: seq<seq<Tile>>, load: nat)
    requires |grid| >= 1 && forall i :: 0 <= i < |grid| ==> |grid[i]| >= |grid[0]|
    ensures |fallen| == |grid[0]|
    ensures forall j :: 0 <= j < |fallen| ==> fallen[j] == FallToStartSpec(GridToColumns(grid)[j])
    ensures load == GetLoad(fallen)
  {
    var cols := GridToColumns(grid);
    fallen := FallNorth(cols);
    load := GetLoad(fallen);
  }
}
