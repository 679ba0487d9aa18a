/** problem_13: lines of reflection in patterns of ash and rock. A line of
    reflection after row `a` pairs row `a - k` with row `a + 1 + k` as far
    as both exist; columns are handled as the rows of the transposed
    pattern. Part 2 flips single cells until a different line appears. */
module Mirrors {
  import opened Wrappers

  datatype Tile = Ash | Rock

  /** `Tile::from_char`; `None` is the panic on any other character. */
  function FromChar(c: char): (r: Option<Tile>)
    ensures r.Some? <==> c == '.' || c == '#'
    ensures r == Some(Ash) <==> c == '.'
  {
    match c
    case '.' => Some(Ash)
    case '#' => Some(Rock)
    case _ => None
  }

  /** `Tile::opp`: the other kind. */
  function Opp(t: Tile): (r: Tile)
    ensures r != t
  {
    match t
    case Ash => Rock
    case Rock => Ash
  }

  lemma OppInvolution(t: Tile)
    ensures Opp(Opp(t)) == t
  {
  }

  type Pattern = seq<seq<Tile>>

  /** `parse_pattern`: every line through `from_char`. */
  function ParsePattern(lines: seq<string>): (r: Option<Pattern>)
    ensures r.Some? <==> forall i, k :: 0 <= i < |lines| && 0 <= k < |lines[i]| ==> lines[i][k] == '.' || lines[i][k] == '#'
    ensures r.Some? ==> |r.value| == |lines|
    ensures r.Some? ==> forall i, k :: 0 <= i < |lines| && 0 <= k < |lines[i]| ==> 0 <= k < |r.value[i]| && FromChar(lines[i][k]) == Some(r.value[i][k])
  {
    var r := MapAll(lines, (line: string) => MapAll(line, FromChar));
    assert r.Some? <==> forall i :: 0 <= i < |lines| ==> MapAll(lines[i], FromChar).Some?;
    r
  }

  // --------------------------------------------------------- one line

  /** Row `a` and row `a + 1` are the middle of a reflection: rows at equal
      distance from it are equal, as far as both exist. */
  predicate IsMirrorLine(p: Pattern, a: nat) {
    forall i, j :: 0 <= i <= a < j < |p| && i + j == 2 * a + 1 ==> p[i] == p[j]
  }

  /** `try_horiz_symmetry_line`: walks outwards from the line until one side
      runs off the pattern or two rows differ. */
  method TryHorizSymmetryLine(p: Pattern, afterLine: nat) returns (b: bool)
    requires |p| >= 1
    ensures b == IsMirrorLine(p, afterLine)
  {
    var lastIdx := |p| - 1;
    var iFirst: int := afterLine;
    var iLast: int := afterLine + 1;
    while iFirst >= 0 && iLast <= lastIdx
      invariant iFirst + iLast == 2 * afterLine + 1 && -1 <= iFirst <= afterLine
      invariant forall i, j :: iFirst < i <= afterLine < j < |p| && i + j == 2 * afterLine + 1 ==> p[i] == p[j]
      decreases iFirst + 1
    {
      if p[iFirst] != p[iLast] {
        return false;
      }
      iFirst := iFirst - 1;
      iLast := iLast + 1;
    }
    return true;
  }

  // ------------------------------------------------------ first line

  /** Line `a` is a reflection `get_horiz_symmetry` may report: within the
      pattern, and not the one it is told to ignore. */
  predicate Candidate(p: Pattern, ignore: Option<nat>, a: nat) {
    a + 1 < |p| && ignore != Some(a) && IsMirrorLine(p, a)
  }

  /** The rows above the first candidate line at or after `a`, or 0. */
  function HorizFrom(p: Pattern, ignore: Option<nat>, a: nat): (r: nat)
    ensures r == 0 || a < r < |p|
    decreases |p| - a
  {
    if a + 1 >= |p| then 0
    else if Candidate(p, ignore, a) then a + 1
    else HorizFrom(p, ignore, a + 1)
  }

  lemma {:induction false} HorizFromFirst(p: Pattern, ignore: Option<nat>, a: nat)
    ensures HorizFrom(p, ignore, a) > 0 ==> Candidate(p, ignore, HorizFrom(p, ignore, a) - 1)
    ensures forall b :: a <= b < |p| - 1 && (HorizFrom(p, ignore, a) == 0 || b < HorizFrom(p, ignore, a) - 1) ==>
      !Candidate(p, ignore, b)
    decreases |p| - a
  {
    if a + 1 < |p| && !Candidate(p, ignore, a) {
      HorizFromFirst(p, ignore, a + 1);
    }
  }

  /** What `get_horiz_symmetry` returns: the number of rows above the first
      reflection line that is not ignored, or 0 when there is none. */
  function HorizSymmetry(p: Pattern, ignore: Option<nat>): (r: nat)
    requires |p| >= 1
    ensures r < |p|
  {
    HorizFrom(p, ignore, 0)
  }

  /** The line `get_horiz_symmetry` reports is a reflection that is not
      ignored, and no line before it is one; 0 means there is none. */
  lemma HorizSymmetryFirst(p: Pattern, ignore: Option<nat>)
    requires |p| >= 1
    ensures HorizSymmetry(p, ignore) > 0 ==> Candidate(p, ignore, HorizSymmetry(p, ignore) - 1)
    ensures forall a :: 0 <= a < |p| - 1 && (HorizSymmetry(p, ignore) == 0 || a < HorizSymmetry(p, ignore) - 1) ==>
      !Candidate(p, ignore, a)
  {
    HorizFromFirst(p, ignore, 0);
  }

  /** `get_horiz_symmetry`: tries the lines in order. */
  method GetHorizSymmetry(p: Pattern, ignore: Option<nat>) returns (r: nat)
    requires |p| >= 1
    ensures r == HorizSymmetry(p, ignore)
  {
    var lastIdx := |p| - 1;
    var afterLine := 0;
    while afterLine < lastIdx
      invariant afterLine <= lastIdx
      invariant HorizFrom(p, ignore, afterLine) == HorizSymmetry(p, ignore)
    {
      if ignore != Some(afterLine) {
        var b := TryHorizSymmetryLine(p, afterLine);
        if b {
          assert Candidate(p, ignore, afterLine);
          return afterLine + 1;
        }
      }
      assert !Candidate(p, ignore, afterLine);
      afterLine := afterLine + 1;
    }
    return 0;
  }

  // ---------------------------------------------------------- columns

  /** The shape every part of the solver needs: a row, a column, and no row
      shorter than the first (`ln[j]` indexes up to the first row's width). */
  predicate Shaped(p: Pattern) {
    |p| >= 1 && |p[0]| >= 1 && forall i :: 0 <= i < |p| ==> |p[i]| >= |p[0]|
  }

  /** The transposed list of `get_vertical_symmetry`: column `j` of the first
      row's width becomes row `j`. */
  function Transpose(p: Pattern): (t: Pattern)
    requires |p| >= 1 && forall i :: 0 <= i < |p| ==> |p[i]| >= |p[0]|
    ensures |t| == |p[0]|
    ensures forall j :: 0 <= j < |t| ==> |t[j]| == |p|
    ensures forall j, i :: 0 <= j < |t| && 0 <= i < |p| ==> t[j][i] == p[i][j]
  {
    seq(|p[0]|, (j: int) requires 0 <= j < |p[0]| => seq(|p|, (i: int) requires 0 <= i < |p| => p[i][j]))
  }

  predicate Rectangular(p: Pattern) {
    |p| >= 1 && forall i :: 0 <= i < |p| ==> |p[i]| == |p[0]|
  }

  /** Transposing a rectangular pattern twice gives it back. */
  lemma TransposeTwice(p: Pattern)
    requires Rectangular(p) && |p[0]| >= 1
    ensures Transpose(Transpose(p)) == p
  {
    var t := Transpose(p);
    var tt := Transpose(t);
    assert |tt| == |p|;
    forall i | 0 <= i < |p| ensures tt[i] == p[i] {
      assert |tt[i]| == |p[i]|;
      assert forall j :: 0 <= j < |p[i]| ==> tt[i][j] == t[j][i] == p[i][j];
    }
  }

  /** Columns at equal distance from the gap after column `a` are equal in
      every row, as far as both exist. */
  predicate IsColumnMirrorLine(p: Pattern, a: nat)
    requires Shaped(p)
  {
    forall r, j1, j2 :: 0 <= r < |p| && 0 <= j1 <= a < j2 < |p[0]| && j1 + j2 == 2 * a + 1 ==> p[r][j1] == p[r][j2]
  }

  lemma MirrorOfTranspose(p: Pattern, a: nat)
    requires Shaped(p)
    ensures IsMirrorLine(Transpose(p), a) <==> IsColumnMirrorLine(p, a)
  {
    var t := Transpose(p);
    if IsMirrorLine(t, a) {
      forall r, j1, j2 | 0 <= r < |p| && 0 <= j1 <= a < j2 < |p[0]| && j1 + j2 == 2 * a + 1
        ensures p[r][j1] == p[r][j2]
      {
        assert t[j1] == t[j2];
        assert t[j1][r] == t[j2][r];
      }
    }
    if IsColumnMirrorLine(p, a) {
      forall j1, j2 | 0 <= j1 <= a < j2 < |t| && j1 + j2 == 2 * a + 1 ensures t[j1] == t[j2] {
        assert forall r :: 0 <= r < |p| ==> t[j1][r] == p[r][j1] == p[r][j2] == t[j2][r];
      }
    }
  }

  /** `get_vertical_symmetry`: the columns left of the first reflection
      between columns that is not ignored, or 0. */
  function VerticalSymmetry(p: Pattern, ignore: Option<nat>): (r: nat)
    requires Shaped(p)
    ensures r < |p[0]|
  {
    HorizSymmetry(Transpose(p), ignore)
  }

  /** The column gap `get_vertical_symmetry` reports is a reflection that is
      not ignored, and no gap before it is one; 0 means there is none. */
  lemma VerticalSymmetryFirst(p: Pattern, ignore: Option<nat>)
    requires Shaped(p)
    ensures VerticalSymmetry(p, ignore) > 0 ==>
      ignore != Some(VerticalSymmetry(p, ignore) - 1) && IsColumnMirrorLine(p, VerticalSymmetry(p, ignore) - 1)
    ensures forall a :: 0 <= a < |p[0]| - 1 && (VerticalSymmetry(p, ignore) == 0 || a < VerticalSymmetry(p, ignore) - 1) ==>
      ignore == Some(a) || !IsColumnMirrorLine(p, a)
  {
    var r := VerticalSymmetry(p, ignore);
    HorizSymmetryFirst(Transpose(p), ignore);
    if r > 0 {
      MirrorOfTranspose(p, r - 1);
    }
    forall a | 0 <= a < |p[0]| - 1 && (r == 0 || a < r - 1) ensures ignore == Some(a) || !IsColumnMirrorLine(p, a) {
      assert !Candidate(Transpose(p), ignore, a);
      MirrorOfTranspose(p, a);
    }
  }

  /** `get_pattern_symmetry_tup`. */
  function PatternSymmetryTup(p: Pattern, ignore: (Option<nat>, Option<nat>)): (r: (nat, nat))
    requires Shaped(p)
    ensures r.0 < |p| && r.1 < |p[0]|
    ensures r.0 == HorizSymmetry(p, ignore.0)
  {
    (HorizSymmetry(p, ignore.0), VerticalSymmetry(p, ignore.1))
  }

  /** `get_pattern_symmetry_tup` as an algorithm. */
  method GetPatternSymmetryTup(p: Pattern, ignore: (Option<nat>, Option<nat>)) returns (r: (nat, nat))
    requires Shaped(p)
    ensures r == PatternSymmetryTup(p, ignore)
  {
    var h := GetHorizSymmetry(p, ignore.0);
    var v := GetHorizSymmetry(Transpose(p), ignore.1);
    r := (h, v);
  }

  /** `get_pattern_symmetry`, the part 1 value of one pattern; `None` is a
      panic on a pattern without a row or column, or with a row shorter
      than the first. */
  function PatternSymmetry(p: Pattern): (r: Option<nat>)
    ensures r.Some? <==> Shaped(p)
    ensures r.Some? ==> r.value == 100 * HorizSymmetry(p, None) + VerticalSymmetry(p, None)
  {
    if Shaped(p) then
      var t := PatternSymmetryTup(p, (None, None));
      Some(100 * t.0 + t.1)
    else None
  }

  // ---------------------------------------------------- part 2: smudges

  /** `has_new_in_dirn`: a line was found and it is not the old one. */
  predicate HasNewInDirn(newValue: nat, oldValue: nat) {
    newValue != 0 && newValue != oldValue
  }

  /** The pattern with cell `(i, j)` flipped. */
  function Flip(p: Pattern, i: nat, j: nat): (q: Pattern)
    requires i < |p| && j < |p[i]|
    ensures |q| == |p|
    ensures forall a :: 0 <= a < |p| ==> |q[a]| == |p[a]|
    ensures q[i][j] == Opp(p[i][j])
    ensures forall a, b :: 0 <= a < |p| && 0 <= b < |p[a]| && (a, b) != (i, j) ==> q[a][b] == p[a][b]
  {
    p[i := p[i][j := Opp(p[i][j])]]
  }

  lemma FlipShaped(p: Pattern, i: nat, j: nat)
    requires Shaped(p) && i < |p| && j < |p[0]|
    ensures Shaped(Flip(p, i, j))
  {
    var q := Flip(p, i, j);
    assert |q[0]| == |p[0]|;
  }

  /** Writing the old tile back undoes a flip. */
  lemma FlipRestore(p: Pattern, i: nat, j: nat)
    requires i < |p| && j < |p[i]|
    ensures Flip(p, i, j)[i := Flip(p, i, j)[i][j := p[i][j]]] == p
  {
    var q := Flip(p, i, j);
    assert q[i][j := p[i][j]] == p[i];
  }

  /** The 0-based lines of the original pattern, ignored on the search. */
  function IgnoreOf(orig: (nat, nat)): (Option<nat>, Option<nat>) {
    (if orig.0 != 0 then Some(orig.0 - 1) else None, if orig.1 != 0 then Some(orig.1 - 1) else None)
  }

  /** What flipping cell `(i, j)` gives: `100 *` a new horizontal line, or a
      new vertical line, or nothing (also outside the pattern). */
  function TryFlip(p: Pattern, orig: (nat, nat), i: nat, j: nat): (r: Option<nat>)
    ensures r.Some? ==> Shaped(p) && i < |p| && j < |p[0]|
    ensures Shaped(p) && i < |p| && j < |p[0]| ==>
      (r.Some? <==> (HasNewInDirn(PatternSymmetryTup(Flip(p, i, j), IgnoreOf(orig)).0, orig.0)
                     || HasNewInDirn(PatternSymmetryTup(Flip(p, i, j), IgnoreOf(orig)).1, orig.1)))
  {
    if Shaped(p) && i < |p| && j < |p[0]| then
      var nv := PatternSymmetryTup(Flip(p, i, j), IgnoreOf(orig));
      if HasNewInDirn(nv.0, orig.0) then Some(100 * nv.0)
      else if HasNewInDirn(nv.1, orig.1) then Some(nv.1)
      else None
    else None
  }

  /** The flips of one pattern as a function of the cell. */
  function Outcomes(p: Pattern, orig: (nat, nat)): (nat, nat) -> Option<nat> {
    (a: nat, b: nat) => TryFlip(p, orig, a, b)
  }

  /** Cell `(a, b)` comes at or after cell `(i, j)` in row-major order. */
  predicate AtOrAfter(a: nat, b: nat, i: nat, j: nat) {
    a > i || (a == i && b >= j)
  }

  /** The first cell of an `h` by `w` grid, in row-major order from `(i, j)`,
      whose outcome is a value, and that value. */
  function Search(f: (nat, nat) -> Option<nat>, h: nat, w: nat, i: nat, j: nat): Option<nat>
    requires i <= h && j <= w
    decreases h - i, w - j
  {
    if i == h then None
    else if j == w then Search(f, h, w, i + 1, 0)
    else match f(i, j)
      case Some(v) => Some(v)
      case None => Search(f, h, w, i, j + 1)
  }

  /** The search finds nothing exactly when no cell from `(i, j)` on has an
      outcome. */
  lemma {:induction false} SearchNone(f: (nat, nat) -> Option<nat>, h: nat, w: nat, i: nat, j: nat)
    requires i <= h && j <= w
    ensures Search(f, h, w, i, j).None? <==>
      forall a: nat, b: nat :: a < h && b < w && AtOrAfter(a, b, i, j) ==> f(a, b).None?
    decreases h - i, w - j
  {
    if i == h {
    } else if j == w {
      SearchNone(f, h, w, i + 1, 0);
    } else if f(i, j).None? {
      SearchNone(f, h, w, i, j + 1);
      assert forall a: nat, b: nat :: AtOrAfter(a, b, i, j) <==> (a, b) == (i, j) || AtOrAfter(a, b, i, j + 1);
    }
  }

  /** What the search finds is the outcome of the first cell from `(i, j)` on
      that has one. */
  lemma {:induction false} SearchSome(f: (nat, nat) -> Option<nat>, h: nat, w: nat, i: nat, j: nat)
    requires i <= h && j <= w
    ensures Search(f, h, w, i, j).Some? ==>
      exists a: nat, b: nat :: a < h && b < w && AtOrAfter(a, b, i, j) && f(a, b) == Search(f, h, w, i, j)
        && forall c: nat, d: nat :: c < h && d < w && AtOrAfter(c, d, i, j) && !AtOrAfter(c, d, a, b) ==> f(c, d).None?
    decreases h - i, w - j
  {
    if i == h {
    } else if j == w {
      SearchSome(f, h, w, i + 1, 0);
    } else if f(i, j).None? {
      SearchSome(f, h, w, i, j + 1);
      assert forall a: nat, b: nat :: AtOrAfter(a, b, i, j) <==> (a, b) == (i, j) || AtOrAfter(a, b, i, j + 1);
    } else {
      assert AtOrAfter(i, j, i, j);
    }
  }

  /** What `get_symmetry_2` returns; `None` is its panic when no single flip
      gives a new line, or a panic on a badly shaped pattern. Otherwise the
      value comes from the first flip, in row-major order, that gives one. */
  function Symmetry2(p: Pattern): (r: Option<nat>)
    ensures !Shaped(p) ==> r.None?
  {
    if Shaped(p) then Search(Outcomes(p, PatternSymmetryTup(p, (None, None))), |p|, |p[0]|, 0, 0)
    else None
  }

  /** `get_symmetry_2` panics exactly when the pattern is badly shaped or no
      single flip gives a new line. */
  lemma Symmetry2None(p: Pattern)
    ensures Symmetry2(p).None? <==>
      !Shaped(p) || forall a: nat, b: nat :: a < |p| && b < |p[0]| ==> TryFlip(p, PatternSymmetryTup(p, (None, None)), a, b).None?
  {
    if Shaped(p) {
      var f := Outcomes(p, PatternSymmetryTup(p, (None, None)));
      SearchNone(f, |p|, |p[0]|, 0, 0);
      assert forall a: nat, b: nat :: f(a, b) == TryFlip(p, PatternSymmetryTup(p, (None, None)), a, b);
    }
  }

  /** A value of `get_symmetry_2` comes from the first flip, in row-major
      order, that gives a new line. */
  lemma Symmetry2First(p: Pattern)
    ensures Symmetry2(p).Some? ==>
      exists a: nat, b: nat :: TryFlip(p, PatternSymmetryTup(p, (None, None)), a, b) == Symmetry2(p)
        && forall c: nat, d: nat :: !AtOrAfter(c, d, a, b) ==> TryFlip(p, PatternSymmetryTup(p, (None, None)), c, d).None?
  {
    if Shaped(p) {
      var f := Outcomes(p, PatternSymmetryTup(p, (None, None)));
      SearchSome(f, |p|, |p[0]|, 0, 0);
      assert forall a: nat, b: nat :: f(a, b) == TryFlip(p, PatternSymmetryTup(p, (None, None)), a, b);
    }
  }

  /** `get_symmetry_2`: flips each cell of a copy in turn and restores it
      before the next, so the copy equals the pattern at the start of every
      iteration. */
  method GetSymmetry2(p: Pattern) returns (r: Option<nat>)
    ensures r == Symmetry2(p)
  {
    if !Shaped(p) {
      return None;
    }
    var orig := GetPatternSymmetryTup(p, (None, None));
    var ignore := IgnoreOf(orig);
    ghost var f := Outcomes(p, orig);
    ghost var goal := Symmetry2(p);
    assert goal == Search(f, |p|, |p[0]|, 0, 0);
    var patMut := p;
    var i := 0;
    while i < |p|
      invariant i <= |p| && patMut == p
      invariant Search(f, |p|, |p[0]|, i, 0) == goal
    {
      var j := 0;
      while j < |p[0]|
        invariant j <= |p[0]| && patMut == p
        invariant Search(f, |p|, |p[0]|, i, j) == goal
      {
        var origTile := patMut[i][j];
        patMut := patMut[i := patMut[i][j := Opp(origTile)]];
        assert patMut == Flip(p, i, j);
        FlipShaped(p, i, j);
        var newValue := GetPatternSymmetryTup(patMut, ignore);
        if HasNewInDirn(newValue.0, orig.0) {
          return Some(100 * newValue.0);
        }
        if HasNewInDirn(newValue.1, orig.1) {
          return Some(newValue.1);
        }
        patMut := patMut[i := patMut[i][j := origTile]];
        FlipRestore(p, i, j);
        j := j + 1;
      }
      i := i + 1;
    }
    return None;
  }
}
