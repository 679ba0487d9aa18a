/** problem_3: the engine schematic. A number is a maximal run of digits on a
    line; part 1 adds the numbers with a character other than '.' in their
    surrounding box, part 2 adds, for every '*' next to exactly two numbers,
    their product. */
module Gears {
  import opened Wrappers
  import opened Text

  /** A number of a schematic line: the first and the last index of its
      digit run, both inclusive, and its decimal value. */
  datatype Span = Span(first: nat, last: nat, num: nat)

  // ---------------------------------------------------------------- digit runs

  /** The index just past the digits that start at `i`. */
  function RunEnd(ln: string, i: nat): (e: nat)
    requires i <= |ln|
    ensures i <= e <= |ln|
    ensures forall k :: i <= k < e ==> IsDigit(ln[k])
    ensures e < |ln| ==> !IsDigit(ln[e])
    decreases |ln| - i
  {
    if i < |ln| && IsDigit(ln[i]) then RunEnd(ln, i + 1) else i
  }

  /** The digit groups of `char_indices().group_by(is_numeric)` from index
      `i` on, each with its first and last index and its value. */
  function RunsFrom(ln: string, i: nat): (r: seq<Span>)
    requires i <= |ln|
    ensures forall k :: 0 <= k < |r| ==> i <= r[k].first <= r[k].last < |ln|
    decreases |ln| - i
  {
    if i == |ln| then []
    else if !IsDigit(ln[i]) then RunsFrom(ln, i + 1)
    else
      var e := RunEnd(ln, i);
      assert AllDigits(ln[i..e]);
      [Span(i, e - 1, DigitsValue(ln[i..e]))] + RunsFrom(ln, e)
  }

  function Runs(ln: string): seq<Span> {
    RunsFrom(ln, 0)
  }

  /** `s` is a maximal digit run of `ln` and carries its decimal value. */
  predicate IsRun(ln: string, s: Span) {
    s.first <= s.last < |ln|
    && (forall k :: s.first <= k <= s.last ==> IsDigit(ln[k]))
    && (s.first == 0 || !IsDigit(ln[s.first - 1]))
    && (s.last + 1 == |ln| || !IsDigit(ln[s.last + 1]))
    && s.num == DigitsValue(ln[s.first..s.last + 1])
  }

  /** `i` is not inside a digit run: it is an end of the line or next to a
      non-digit. */
  predicate Boundary(ln: string, i: nat)
    requires i <= |ln|
  {
    i == 0 || i == |ln| || !IsDigit(ln[i - 1]) || !IsDigit(ln[i])
  }

  /** Every run found from a boundary `i` is a maximal digit run. */
  lemma {:induction false} RunsFromAreRuns(ln: string, i: nat)
    requires i <= |ln| && Boundary(ln, i)
    ensures forall k :: 0 <= k < |RunsFrom(ln, i)| ==>
      IsRun(ln, RunsFrom(ln, i)[k])
    decreases |ln| - i
  {
    if i < |ln| {
      if !IsDigit(ln[i]) {
        RunsFromAreRuns(ln, i + 1);
      } else {
        var e := RunEnd(ln, i);
        RunsFromAreRuns(ln, e);
        assert IsRun(ln, RunsFrom(ln, i)[0]);
      }
    }
  }

  /** Runs found from `i` come in order, separated by at least one
      non-digit. */
  lemma {:induction false} RunsFromOrdered(ln: string, i: nat)
    requires i <= |ln|
    ensures forall a, b :: 0 <= a < b < |RunsFrom(ln, i)| ==>
      RunsFrom(ln, i)[a].last + 1 < RunsFrom(ln, i)[b].first
    decreases |ln| - i
  {
    if i < |ln| {
      if !IsDigit(ln[i]) {
        RunsFromOrdered(ln, i + 1);
      } else {
        var e := RunEnd(ln, i);
        RunsFromOrdered(ln, e);
        var rest := RunsFrom(ln, e);
        if e < |ln| {
          assert rest == RunsFrom(ln, e + 1);
        }
        var rs := RunsFrom(ln, i);
        assert rs == [rs[0]] + rest;
        forall a, b | 0 <= a < b < |rs| ensures rs[a].last + 1 < rs[b].first {
          assert rs[b] == rest[b - 1];
          if a > 0 {
            assert rs[a] == rest[a - 1];
          }
        }
      }
    }
  }

  /** Every digit at or after `i` lies in one of the runs found from `i`. */
  lemma {:induction false} RunsFromCover(ln: string, i: nat, p: nat)
    requires i <= p < |ln| && IsDigit(ln[p])
    ensures exists k :: 0 <= k < |RunsFrom(ln, i)| && RunsFrom(ln, i)[k].first <= p <= RunsFrom(ln, i)[k].last
    decreases |ln| - i
  {
    var rs := RunsFrom(ln, i);
    if !IsDigit(ln[i]) {
      RunsFromCover(ln, i + 1, p);
    } else {
      var e := RunEnd(ln, i);
      if p < e {
        assert rs[0].first <= p <= rs[0].last;
      } else {
        RunsFromCover(ln, e, p);
        var k :| 0 <= k < |RunsFrom(ln, e)| && RunsFrom(ln, e)[k].first <= p <= RunsFrom(ln, e)[k].last;
        assert rs[k + 1] == RunsFrom(ln, e)[k];
      }
    }
  }

  /** The runs of a line are exactly its maximal digit runs, in order: each
      is a maximal run with its value, they are ordered and apart, and they
      cover every digit. */
  lemma RunsSpec(ln: string)
    ensures forall k :: 0 <= k < |Runs(ln)| ==> IsRun(ln, Runs(ln)[k])
    ensures forall a, b :: 0 <= a < b < |Runs(ln)| ==> Runs(ln)[a].last + 1 < Runs(ln)[b].first
    ensures forall p :: 0 <= p < |ln| && IsDigit(ln[p]) ==>
      exists k :: 0 <= k < |Runs(ln)| && Runs(ln)[k].first <= p <= Runs(ln)[k].last
  {
    var rs := Runs(ln);
    RunsFromAreRuns(ln, 0);
    RunsFromOrdered(ln, 0);
    forall p | 0 <= p < |ln| && IsDigit(ln[p])
      ensures exists k :: 0 <= k < |rs| && rs[k].first <= p <= rs[k].last
    {
      RunsFromCover(ln, 0, p);
      var k :| 0 <= k < |rs| && rs[k].first <= p <= rs[k].last;
    }
  }

  /** Every run value fits a `u32`. */
  predicate FitU32(spans: seq<Span>) {
    forall k :: 0 <= k < |spans| ==> spans[k].num < U32_LIMIT
  }

  /** The numbers of a line; `None` is the `parse::<u32>` panic of a run too
      large for a `u32`. */
  function LineNumbers(ln: string): (r: Option<seq<Span>>)
    ensures r.Some? ==> r.value == Runs(ln)
  {
    if FitU32(Runs(ln)) then Some(Runs(ln)) else None
  }

  /** The digits of a run parse as a `u32` exactly when its value fits,
      and then they parse to that value. */
  lemma RunParses(ln: string, s: Span)
    requires IsRun(ln, s)
    ensures ParseUnsigned(ln[s.first..s.last + 1], U32_LIMIT) == (if s.num < U32_LIMIT then Some(s.num) else None)
  {
    var d := ln[s.first..s.last + 1];
    assert IsDigit(d[0]);
  }

  /** A line has numbers exactly when every run parses as a `u32`, and the
      parsed values are the run values. */
  lemma LineNumbersParse(ln: string)
    ensures LineNumbers(ln).Some? <==> forall k :: 0 <= k < |Runs(ln)| ==>
      ParseUnsigned(ln[Runs(ln)[k].first..Runs(ln)[k].last + 1], U32_LIMIT) == Some(Runs(ln)[k].num)
  {
    var rs := Runs(ln);
    RunsFromAreRuns(ln, 0);
    forall k | 0 <= k < |rs|
      ensures ParseUnsigned(ln[rs[k].first..rs[k].last + 1], U32_LIMIT) == Some(rs[k].num) <==> rs[k].num < U32_LIMIT
    {
      RunParses(ln, rs[k]);
    }
  }

  // ---------------------------------------------------------------- part 1

  /** A cell of a line; a cell off the line reads as '.'. */
  function CellAt(ln: string, c: int): char {
    if 0 <= c < |ln| then ln[c] else '.'
  }

  /** The cells of `ln` from `lo` to `hi`, both inclusive. */
  function Cells(ln: string, lo: int, hi: int): seq<char>
    decreases hi - lo + 1
  {
    if hi < lo then [] else [CellAt(ln, lo)] + Cells(ln, lo + 1, hi)
  }

  /** `adj.any(|c| c != '.')`. */
  predicate AnyMarked(cs: seq<char>) {
    exists k :: 0 <= k < |cs| && cs[k] != '.'
  }

  /** The first column of the rows above and below: `first_idx.saturating_sub(1)`. */
  function LeftCol(s: Span): nat {
    if s.first == 0 then 0 else s.first - 1
  }

  /** The cells around a number: the row above, the cell before, the cell
      after and the row below, as part 1 chains them. */
  function BoxCells(prev: string, curr: string, next: string, s: Span): seq<char> {
    Cells(prev, LeftCol(s), s.last + 1)
    + [if s.first == 0 then '.' else CellAt(curr, s.first - 1)]
    + [CellAt(curr, s.last + 1)]
    + Cells(next, LeftCol(s), s.last + 1)
  }

  predicate IsPartNumber(prev: string, curr: string, next: string, s: Span) {
    AnyMarked(BoxCells(prev, curr, next, s))
  }

  /** Row `r` of the window: -1 above, 0 the number's own line, 1 below. */
  function WindowRow(prev: string, curr: string, next: string, r: int): string {
    if r < 0 then prev else if r == 0 then curr else next
  }

  /** `(r, c)` is in the box around `s`, diagonals included, and not one of
      its own digits. */
  predicate InBox(s: Span, r: int, c: int) {
    -1 <= r <= 1 && s.first - 1 <= c <= s.last + 1 && (r == 0 ==> c < s.first || s.last < c)
  }

  /** Some cell in the box around `s` holds something other than '.'. */
  ghost predicate MarkedBox(prev: string, curr: string, next: string, s: Span) {
    exists r: int, c: int :: InBox(s, r, c) && CellAt(WindowRow(prev, curr, next, r), c) != '.'
  }

  /** The cells from `lo` to `hi` hold a mark exactly when one of those
      columns does. */
  lemma {:induction false} CellsMarked(ln: string, lo: int, hi: int)
    ensures AnyMarked(Cells(ln, lo, hi)) <==> exists c :: lo <= c <= hi && CellAt(ln, c) != '.'
    decreases hi - lo + 1
  {
    if lo <= hi {
      CellsMarked(ln, lo + 1, hi);
      var cs := Cells(ln, lo, hi);
      assert cs == [CellAt(ln, lo)] + Cells(ln, lo + 1, hi);
      assert cs[0] == CellAt(ln, lo);
      if exists c :: lo + 1 <= c <= hi && CellAt(ln, c) != '.' {
        var k :| 0 <= k < |Cells(ln, lo + 1, hi)| && Cells(ln, lo + 1, hi)[k] != '.';
        assert cs[k + 1] != '.';
      }
      if AnyMarked(cs) && CellAt(ln, lo) == '.' {
        var k :| 0 <= k < |cs| && cs[k] != '.';
        assert Cells(ln, lo + 1, hi)[k - 1] != '.';
      }
    }
  }

  lemma AnyMarkedAppend(a: seq<char>, b: seq<char>)
    ensures AnyMarked(a + b) <==> AnyMarked(a) || AnyMarked(b)
  {
    if AnyMarked(a) {
      var k :| 0 <= k < |a| && a[k] != '.';
      assert (a + b)[k] != '.';
    }
    if AnyMarked(b) {
      var k :| 0 <= k < |b| && b[k] != '.';
      assert (a + b)[|a| + k] != '.';
    }
    if AnyMarked(a + b) && !AnyMarked(a) {
      var k :| 0 <= k < |a + b| && (a + b)[k] != '.';
      assert b[k - |a|] != '.';
    }
  }

  /** Some cell of `ln` in the box columns of `s` holds a mark. */
  ghost predicate RowMarked(ln: string, s: Span) {
    exists c :: s.first - 1 <= c <= s.last + 1 && CellAt(ln, c) != '.'
  }

  /** The row cells part 1 reads above or below hold a mark exactly when
      the row does in the box columns. */
  lemma RowCellsMarked(ln: string, s: Span)
    ensures AnyMarked(Cells(ln, LeftCol(s), s.last + 1)) <==> RowMarked(ln, s)
  {
    CellsMarked(ln, LeftCol(s), s.last + 1);
    if RowMarked(ln, s) {
      var c :| s.first - 1 <= c <= s.last + 1 && CellAt(ln, c) != '.';
      assert c != -1;
    }
  }

  /** The box is marked exactly when the row above, the cell before, the
      cell after or the row below is. */
  lemma MarkedBoxParts(prev: string, curr: string, next: string, s: Span)
    requires s.first <= s.last
    ensures MarkedBox(prev, curr, next, s) <==>
      RowMarked(prev, s) || CellAt(curr, s.first - 1) != '.' || CellAt(curr, s.last + 1) != '.' || RowMarked(next, s)
  {
    if MarkedBox(prev, curr, next, s) {
      var r: int, c: int :| InBox(s, r, c) && CellAt(WindowRow(prev, curr, next, r), c) != '.';
      if r == -1 {
        assert RowMarked(prev, s);
      } else if r == 1 {
        assert RowMarked(next, s);
      }
    }
    if CellAt(curr, s.first - 1) != '.' {
      assert InBox(s, 0, s.first - 1) && CellAt(WindowRow(prev, curr, next, 0), s.first - 1) != '.';
    }
    if CellAt(curr, s.last + 1) != '.' {
      assert InBox(s, 0, s.last + 1) && CellAt(WindowRow(prev, curr, next, 0), s.last + 1) != '.';
    }
    if RowMarked(prev, s) {
      var c :| s.first - 1 <= c <= s.last + 1 && CellAt(prev, c) != '.';
      assert InBox(s, -1, c) && CellAt(WindowRow(prev, curr, next, -1), c) != '.';
    }
    if RowMarked(next, s) {
      var c :| s.first - 1 <= c <= s.last + 1 && CellAt(next, c) != '.';
      assert InBox(s, 1, c) && CellAt(WindowRow(prev, curr, next, 1), c) != '.';
    }
  }

  /** Part 1's cells are marked exactly when the row above, the cell
      before, the cell after or the row below is. */
  lemma BoxCellsParts(prev: string, curr: string, next: string, s: Span)
    ensures IsPartNumber(prev, curr, next, s) <==>
      RowMarked(prev, s) || CellAt(curr, s.first - 1) != '.' || CellAt(curr, s.last + 1) != '.' || RowMarked(next, s)
  {
    var top := Cells(prev, LeftCol(s), s.last + 1);
    var bot := Cells(next, LeftCol(s), s.last + 1);
    var left := if s.first == 0 then '.' else CellAt(curr, s.first - 1);
    var right := CellAt(curr, s.last + 1);
    assert BoxCells(prev, curr, next, s) == (top + [left]) + ([right] + bot);
    AnyMarkedAppend(top + [left], [right] + bot);
    AnyMarkedAppend(top, [left]);
    AnyMarkedAppend([right], bot);
    RowCellsMarked(prev, s);
    RowCellsMarked(next, s);
    assert AnyMarked([left]) <==> [left][0] != '.';
    assert AnyMarked([right]) <==> [right][0] != '.';
  }

  /** Part 1 counts a number exactly when its box, diagonals included, holds
      a cell other than '.'; cells off the lines count as '.'. */
  lemma PartNumberIff(prev: string, curr: string, next: string, s: Span)
    requires s.first <= s.last
    ensures IsPartNumber(prev, curr, next, s) <==> MarkedBox(prev, curr, next, s)
  {
    BoxCellsParts(prev, curr, next, s);
    MarkedBoxParts(prev, curr, next, s);
  }

  /** The sum of the part numbers among `spans`. */
  function LineSum(prev: string, curr: string, next: string, spans: seq<Span>): nat {
    if spans == [] then 0
    else
      var here := if IsPartNumber(prev, curr, next, spans[0]) then spans[0].num else 0;
      here + LineSum(prev, curr, next, spans[1..])
  }

  function MaxLen(lines: seq<string>): nat {
    if lines == [] then 0 else MaxNat(|lines[0]|, MaxLen(lines[1..]))
  }

  function MaxNat(a: nat, b: nat): nat {
    if a < b then b else a
  }

  /** `".".repeat(n)`. */
  function Dots(n: nat): (r: string)
    ensures |r| == n && forall c :: CellAt(r, c) == '.'
  {
    seq(n, _ => '.')
  }

  /** The sums of the windows `padded[k..k + 3]` for `k` from `k` on, with
      `nums[k]` the numbers of the middle line. */
  function WindowSums(padded: seq<string>, nums: seq<seq<Span>>, k: nat): nat
    requires |padded| == |nums| + 2 && k <= |nums|
    decreases |nums| - k
  {
    if k == |nums| then 0
    else LineSum(padded[k], padded[k + 1], padded[k + 2], nums[k]) + WindowSums(padded, nums, k + 1)
  }

  /** Part 1: the sum of all part numbers. `None` is the "Expected >= 1
      line" panic on an empty schematic, or a run too large for a `u32`. */
  function Part1(input: seq<string>): (r: Option<nat>)
    ensures var lines := TrimmedLines(input);
      r.Some? <==> lines != [] && forall k :: 0 <= k < |lines| ==> FitU32(Runs(lines[k]))
  {
    var lines := TrimmedLines(input);
    AllLineNumbers(lines);
    if lines == [] then None
    else
      match MapAll(lines, LineNumbers)
      case None => None
      case Some(nums) =>
        var pad := Dots(MaxLen(lines));
        Some(WindowSums([pad] + lines + [pad], nums, 0))
  }

  /** Every span starts no later than it ends. */
  predicate WellFormed(spans: seq<Span>) {
    forall k :: 0 <= k < |spans| ==> spans[k].first <= spans[k].last
  }

  /** Line `r` of the schematic, or the empty line off it. */
  function LineAt(lines: seq<string>, r: int): string {
    if 0 <= r < |lines| then lines[r] else ""
  }

  /** A number of line `li`, checked against the lines themselves. */
  ghost predicate GridPartNumber(lines: seq<string>, li: int, s: Span) {
    exists r: int, c: int :: InBox(s, r, c) && CellAt(LineAt(lines, li + r), c) != '.'
  }

  ghost function GridLineSum(lines: seq<string>, li: int, spans: seq<Span>): nat {
    if spans == [] then 0
    else
      var here := if GridPartNumber(lines, li, spans[0]) then spans[0].num else 0;
      here + GridLineSum(lines, li, spans[1..])
  }

  ghost function GridSums(lines: seq<string>, nums: seq<seq<Span>>, k: nat): nat
    requires k <= |nums|
    decreases |nums| - k
  {
    if k == |nums| then 0 else GridLineSum(lines, k, nums[k]) + GridSums(lines, nums, k + 1)
  }

  /** In the padded window of line `k`, every row reads like the schematic
      line it stands for, with '.' off the schematic. */
  lemma PaddedWindow(lines: seq<string>, pad: string, k: nat, r: int, c: int)
    requires k < |lines| && -1 <= r <= 1 && forall c :: CellAt(pad, c) == '.'
    ensures var padded := [pad] + lines + [pad];
      CellAt(WindowRow(padded[k], padded[k + 1], padded[k + 2], r), c) == CellAt(LineAt(lines, k + r), c)
  {
    var padded := [pad] + lines + [pad];
    assert padded[k + 1] == lines[k];
    if 0 <= k + r < |lines| {
      assert padded[k + 1 + r] == lines[k + r];
    }
  }

  lemma WindowPartNumber(lines: seq<string>, pad: string, k: nat, s: Span)
    requires k < |lines| && forall c :: CellAt(pad, c) == '.'
    requires s.first <= s.last
    ensures var padded := [pad] + lines + [pad];
      IsPartNumber(padded[k], padded[k + 1], padded[k + 2], s) <==> GridPartNumber(lines, k, s)
  {
    var padded := [pad] + lines + [pad];
    var prev, curr, next := padded[k], padded[k + 1], padded[k + 2];
    PartNumberIff(prev, curr, next, s);
    forall r: int, c: int | -1 <= r <= 1
      ensures CellAt(WindowRow(prev, curr, next, r), c) == CellAt(LineAt(lines, k + r), c)
    {
      PaddedWindow(lines, pad, k, r, c);
    }
  }

  lemma {:induction false} WindowLineSum(lines: seq<string>, pad: string, k: nat, spans: seq<Span>)
    requires k < |lines| && forall c :: CellAt(pad, c) == '.'
    requires WellFormed(spans)
    ensures var padded := [pad] + lines + [pad];
      LineSum(padded[k], padded[k + 1], padded[k + 2], spans) == GridLineSum(lines, k, spans)
  {
    if spans != [] {
      WindowPartNumber(lines, pad, k, spans[0]);
      assert WellFormed(spans[1..]) by {
        forall j | 0 <= j < |spans[1..]| ensures spans[1..][j] == spans[j + 1] { }
      }
      WindowLineSum(lines, pad, k, spans[1..]);
    }
  }

  lemma {:induction false} WindowSumsGrid(lines: seq<string>, pad: string, nums: seq<seq<Span>>, k: nat)
    requires |nums| == |lines| && k <= |lines| && forall c :: CellAt(pad, c) == '.'
    requires forall j :: 0 <= j < |nums| ==> WellFormed(nums[j])
    ensures WindowSums([pad] + lines + [pad], nums, k) == GridSums(lines, nums, k)
    decreases |lines| - k
  {
    if k < |lines| {
      WindowLineSum(lines, pad, k, nums[k]);
      WindowSumsGrid(lines, pad, nums, k + 1);
    }
  }

  /** Part 1 adds, over every line, the numbers of that line whose box holds
      a cell other than '.', with cells off the schematic reading as '.'. */
  lemma Part1Spec(input: seq<string>)
    ensures var lines := TrimmedLines(input);
      Part1(input).Some? ==> Part1(input).value == GridSums(lines, seq(|lines|, k requires 0 <= k < |lines| => Runs(lines[k])), 0)
  {
    var lines := TrimmedLines(input);
    AllLineNumbers(lines);
    if lines != [] {
      var m := MapAll(lines, LineNumbers);
      if m.Some? {
        var nums := m.value;
        var pad := Dots(MaxLen(lines));
        WindowSumsGrid(lines, pad, nums, 0);
      }
    }
  }

  /** The numbers of all lines parse exactly when every run fits a `u32`,
      and are then the runs of each line, each well formed. */
  lemma AllLineNumbers(lines: seq<string>)
    ensures MapAll(lines, LineNumbers).Some? <==> forall k :: 0 <= k < |lines| ==> FitU32(Runs(lines[k]))
    ensures var m := MapAll(lines, LineNumbers);
      m.Some? ==> m.value == seq(|lines|, k requires 0 <= k < |lines| => Runs(lines[k]))
    ensures var m := MapAll(lines, LineNumbers);
      m.Some? ==> forall j :: 0 <= j < |m.value| ==> WellFormed(m.value[j])
  {
    var m := MapAll(lines, LineNumbers);
    if m.Some? {
      forall j | 0 <= j < |m.value| ensures m.value[j] == Runs(lines[j]) && WellFormed(m.value[j]) {
        assert LineNumbers(lines[j]) == Some(m.value[j]);
      }
    }
  }

  // ---------------------------------------------------------------- part 2

  /** `intersect_ranges` on inclusive index ranges. */
  predicate IntersectRanges(r0: (nat, nat), r1: (nat, nat)) {
    !(r0.1 < r1.0 || r1.1 < r0.0)
  }

  /** Two non-empty inclusive ranges intersect exactly when they share an
      index. */
  lemma IntersectIff(r0: (nat, nat), r1: (nat, nat))
    requires r0.0 <= r0.1 && r1.0 <= r1.1
    ensures IntersectRanges(r0, r1) <==> exists x: int :: InRange(r0, x) && InRange(r1, x)
  {
    if IntersectRanges(r0, r1) {
      var x := if r0.0 < r1.0 then r1.0 else r0.0;
      assert InRange(r0, x) && InRange(r1, x);
    }
  }

  /** `x` lies in the inclusive range `r`. */
  predicate InRange(r: (nat, nat), x: int) {
    r.0 <= x <= r.1
  }

  lemma IntersectSymmetric(r0: (nat, nat), r1: (nat, nat))
    ensures IntersectRanges(r0, r1) == IntersectRanges(r1, r0)
  {
  }

  /** The values of the spans meeting `rg`, in order. */
  function Intersecting(spans: seq<Span>, rg: (nat, nat)): seq<nat> {
    if spans == [] then []
    else
      var here := if IntersectRanges(rg, (spans[0].first, spans[0].last)) then [spans[0].num] else [];
      here + Intersecting(spans[1..], rg)
  }

  /** One span contributes its value exactly when it meets the range. */
  lemma IntersectingSingle(s: Span, rg: (nat, nat))
    ensures Intersecting([s], rg) == if IntersectRanges(rg, (s.first, s.last)) then [s.num] else []
  {
    assert [s][1..] == [];
  }

  /** Filtering a concatenation keeps the order: the matches of the first
      part come before those of the second. */
  lemma {:induction false} IntersectingAppend(a: seq<Span>, b: seq<Span>, rg: (nat, nat))
    ensures Intersecting(a + b, rg) == Intersecting(a, rg) + Intersecting(b, rg)
  {
    if a != [] {
      assert (a + b)[1..] == a[1..] + b;
      IntersectingAppend(a[1..], b, rg);
    } else {
      assert a + b == b;
    }
  }

  /** `find_intersecting_on_line`: the numbers of line `lineIdx` that meet the range. */
  function FindIntersectingOnLine(numIdx: seq<seq<Span>>, lineIdx: nat, rg: (nat, nat)): (r: seq<nat>)
    requires lineIdx < |numIdx|
    ensures |r| <= |numIdx[lineIdx]|
    ensures r == [] <==> forall k :: 0 <= k < |numIdx[lineIdx]| ==>
      !IntersectRanges(rg, (numIdx[lineIdx][k].first, numIdx[lineIdx][k].last))
    ensures forall j :: 0 <= j < |r| ==> MeetingNumber(numIdx[lineIdx], rg, r[j])
  {
    IntersectingFrom(numIdx[lineIdx], rg);
    Intersecting(numIdx[lineIdx], rg)
  }

  /** `x` is the number of some span that meets the range. */
  ghost predicate MeetingNumber(spans: seq<Span>, rg: (nat, nat), x: nat) {
    exists k :: 0 <= k < |spans| && spans[k].num == x && IntersectRanges(rg, (spans[k].first, spans[k].last))
  }

  /** The numbers found are at most one per span, none exactly when no span
      meets the range, and each the number of a span that meets it. */
  lemma {:induction false} IntersectingFrom(spans: seq<Span>, rg: (nat, nat))
    ensures |Intersecting(spans, rg)| <= |spans|
    ensures Intersecting(spans, rg) == [] <==> forall k :: 0 <= k < |spans| ==>
      !IntersectRanges(rg, (spans[k].first, spans[k].last))
    ensures forall j :: 0 <= j < |Intersecting(spans, rg)| ==> MeetingNumber(spans, rg, Intersecting(spans, rg)[j])
  {
    if spans != [] {
      var tail := spans[1..];
      IntersectingFrom(tail, rg);
      var r := Intersecting(spans, rg);
      var here := if IntersectRanges(rg, (spans[0].first, spans[0].last)) then [spans[0].num] else [];
      var rest := Intersecting(tail, rg);
      assert r == here + rest;
      assert (forall k :: 0 <= k < |tail| ==> !IntersectRanges(rg, (tail[k].first, tail[k].last))) <==>
        (forall k :: 1 <= k < |spans| ==> !IntersectRanges(rg, (spans[k].first, spans[k].last))) by {
        forall k | 1 <= k < |spans| ensures spans[k] == tail[k - 1] { }
      }
      forall j | 0 <= j < |r| ensures MeetingNumber(spans, rg, r[j]) {
        if j < |here| {
          assert spans[0].num == r[j];
        } else {
          assert r[j] == rest[j - |here|];
          var k' :| 0 <= k' < |tail| && tail[k'].num == rest[j - |here|] &&
            IntersectRanges(rg, (tail[k'].first, tail[k'].last));
          assert spans[k' + 1] == tail[k'];
          assert MeetingNumber(spans, rg, r[j]);
        }
      }
    }
  }

  /** The columns searched above and below a '*' at `i`. */
  function TopRange(i: nat): (nat, nat) {
    if i == 0 then (i, i + 1) else (i - 1, i + 1)
  }

  /** `x` is the number of a span of `spans` whose box holds column `i`. */
  ghost predicate TouchingNumber(spans: seq<Span>, i: nat, x: nat) {
    exists k :: 0 <= k < |spans| && spans[k].num == x && Touches(spans[k], i)
  }

  /** `x` is the number of a span on line `li` or on a line next to it
      whose box holds column `i`. */
  ghost predicate NearNumber(numIdx: seq<seq<Span>>, li: nat, i: nat, x: nat)
    requires li < |numIdx|
  {
    (li > 0 && TouchingNumber(numIdx[li - 1], i, x))
    || TouchingNumber(numIdx[li], i, x)
    || (li + 1 < |numIdx| && TouchingNumber(numIdx[li + 1], i, x))
  }

  /** The numbers next to the '*' at `(li, i)`: above, before, after and
      below, in that order. */
  function AdjacentNums(lines: seq<string>, numIdx: seq<seq<Span>>, li: nat, i: nat): (r: seq<nat>)
    requires |numIdx| == |lines| && li < |lines| && i < |lines[li]|
    ensures forall x :: x in r ==> NearNumber(numIdx, li, i, x)
  {
    var top := if li > 0 then FindIntersectingOnLine(numIdx, li - 1, TopRange(i)) else [];
    var before := if i != 0 then FindIntersectingOnLine(numIdx, li, (i - 1, i - 1)) else [];
    var after := if i != |lines[li]| - 1 then FindIntersectingOnLine(numIdx, li, (i + 1, i + 1)) else [];
    var bot := if li < |lines| - 1 then FindIntersectingOnLine(numIdx, li + 1, TopRange(i)) else [];
    assert forall x :: x in top + before + after + bot ==> NearNumber(numIdx, li, i, x) by {
      if li > 0 { PartNear(numIdx, li, li - 1, i, TopRange(i)); }
      if i != 0 { PartNear(numIdx, li, li, i, (i - 1, i - 1)); }
      if i != |lines[li]| - 1 { PartNear(numIdx, li, li, i, (i + 1, i + 1)); }
      if li < |lines| - 1 { PartNear(numIdx, li, li + 1, i, TopRange(i)); }
    }
    top + before + after + bot
  }

  /** A range reaching at most one column either side of `i` meets only
      spans whose box holds `i`. */
  lemma PartNear(numIdx: seq<seq<Span>>, li: nat, l: nat, i: nat, rg: (nat, nat))
    requires li < |numIdx| && l < |numIdx| && (l + 1 == li || l == li || l == li + 1)
    requires rg.1 <= i + 1 && i <= rg.0 + 1
    ensures forall x :: x in FindIntersectingOnLine(numIdx, l, rg) ==> NearNumber(numIdx, li, i, x)
  {
    var part := FindIntersectingOnLine(numIdx, l, rg);
    forall x | x in part ensures NearNumber(numIdx, li, i, x) {
      var j :| 0 <= j < |part| && part[j] == x;
      assert MeetingNumber(numIdx[l], rg, part[j]);
      var k :| 0 <= k < |numIdx[l]| && numIdx[l][k].num == x &&
        IntersectRanges(rg, (numIdx[l][k].first, numIdx[l][k].last));
      assert Touches(numIdx[l][k], i);
      assert TouchingNumber(numIdx[l], i, x);
    }
  }

  /** The gear ratio of a '*': the product of its adjacent numbers when
      there are exactly two, otherwise nothing. On a parsed schematic a '*'
      has a ratio exactly when exactly two numbers have it in their box. */
  function GearRatio(lines: seq<string>, numIdx: seq<seq<Span>>, li: nat, i: nat): (r: Option<nat>)
    requires |numIdx| == |lines| && li < |lines| && i < |lines[li]|
    ensures lines[li][i] == '*' && numIdx[li] == Runs(lines[li]) ==>
      (r.Some? <==> TouchTotal(numIdx, li, i) == 2)
    ensures r.Some? ==> exists a: nat, b: nat :: NearNumber(numIdx, li, i, a) && NearNumber(numIdx, li, i, b) && r.value == a * b
  {
    var adj := AdjacentNums(lines, numIdx, li, i);
    assert lines[li][i] == '*' && numIdx[li] == Runs(lines[li]) ==> |adj| == TouchTotal(numIdx, li, i) by {
      if lines[li][i] == '*' && numIdx[li] == Runs(lines[li]) {
        StarAvoidsRuns(lines[li], i);
        AdjacentCount(lines, numIdx, li, i);
      }
    }
    if |adj| == 2 then
      assert adj[0] in adj && adj[1] in adj;
      ProductNat(adj[0], adj[1]);
      Some(adj[0] * adj[1])
    else None
  }

  /** A gear's ratio is the product of the numbers of the two spans whose
      box holds the star, even when the two numbers are equal. */
  lemma GearRatioTouching(lines: seq<string>, numIdx: seq<seq<Span>>, li: nat, i: nat)
    requires |numIdx| == |lines| && li < |lines| && i < |lines[li]|
    requires lines[li][i] == '*' && numIdx[li] == Runs(lines[li])
    requires GearRatio(lines, numIdx, li, i).Some?
    ensures |TouchingNums(numIdx, li, i)| == 2
    ensures GearRatio(lines, numIdx, li, i).value == TouchingNums(numIdx, li, i)[0] as int * TouchingNums(numIdx, li, i)[1]
  {
    var adj := AdjacentNums(lines, numIdx, li, i);
    var t := TouchingNums(numIdx, li, i);
    StarAvoidsRuns(lines[li], i);
    AdjacentMultiset(lines, numIdx, li, i);
    SameProduct(adj, TouchingNums(numIdx, li, i));
  }

  /** A product of two naturals is a natural. */
  lemma ProductNat(a: nat, b: nat)
    ensures a * b >= 0
  {
  }

  /** Two lists of two numbers with the same elements have the same product. */
  lemma SameProduct(a: seq<nat>, b: seq<nat>)
    requires |a| == 2 && |b| == 2 && multiset(a) == multiset(b)
    ensures a[0] * a[1] == b[0] * b[1]
  {
    assert a == [a[0], a[1]] && b == [b[0], b[1]];
    assert a[0] in multiset(b);
    if a[0] == b[0] {
      assert multiset(a) - multiset{a[0]} == multiset{a[1]};
      assert multiset(b) - multiset{b[0]} == multiset{b[1]};
    } else {
      assert a[0] == b[1];
      assert multiset(a) - multiset{a[0]} == multiset{a[1]};
      assert multiset(b) - multiset{b[1]} == multiset{b[0]};
    }
  }

  /** The numbers of the spans of `spans` whose box holds column `i`, one
      per span, in order. */
  function TouchNums(spans: seq<Span>, i: int): (r: seq<nat>)
    ensures |r| == TouchCount(spans, i)
  {
    if spans == [] then [] else (if Touches(spans[0], i) then [spans[0].num] else []) + TouchNums(spans[1..], i)
  }

  /** The numbers of the spans on the lines above, at and below `li` whose
      box holds column `i`: one entry per span, however the numbers repeat. */
  function TouchingNums(numIdx: seq<seq<Span>>, li: nat, i: int): (r: seq<nat>)
    requires li < |numIdx|
    ensures |r| == TouchTotal(numIdx, li, i)
  {
    (if li > 0 then TouchNums(numIdx[li - 1], i) else [])
    + TouchNums(numIdx[li], i)
    + (if li + 1 < |numIdx| then TouchNums(numIdx[li + 1], i) else [])
  }

  /** Column `i` lies in the box columns of `s`. */
  predicate Touches(s: Span, i: int) {
    s.first - 1 <= i <= s.last + 1
  }

  function TouchCount(spans: seq<Span>, i: int): nat {
    if spans == [] then 0 else (if Touches(spans[0], i) then 1 else 0) + TouchCount(spans[1..], i)
  }

  /** How many numbers on the lines above, at and below `li` have column `i`
      in their box. */
  function TouchTotal(numIdx: seq<seq<Span>>, li: nat, i: int): nat
    requires li < |numIdx|
  {
    (if li > 0 then TouchCount(numIdx[li - 1], i) else 0)
    + TouchCount(numIdx[li], i)
    + (if li + 1 < |numIdx| then TouchCount(numIdx[li + 1], i) else 0)
  }

  /** The numbers of a line `w` columns wide, none of them covering column `i`. */
  predicate AvoidsColumn(spans: seq<Span>, w: nat, i: nat) {
    forall k :: 0 <= k < |spans| ==>
      spans[k].first <= spans[k].last < w && !(spans[k].first <= i <= spans[k].last)
  }

  /** Above and below, the range searched meets a number exactly when the
      column is in its box. */
  lemma {:induction false} TopRangeTouches(spans: seq<Span>, i: nat)
    ensures |Intersecting(spans, TopRange(i))| == TouchCount(spans, i)
  {
    if spans != [] {
      TopRangeTouches(spans[1..], i);
    }
  }

  function Before(spans: seq<Span>, i: nat): seq<nat> {
    if i != 0 then Intersecting(spans, (i - 1, i - 1)) else []
  }

  function After(spans: seq<Span>, w: nat, i: nat): seq<nat> {
    if i != w - 1 then Intersecting(spans, (i + 1, i + 1)) else []
  }

  /** On the star's own line the cells before and after together meet every
      number whose box holds the star, once each. */
  lemma {:induction false} SideTouches(spans: seq<Span>, w: nat, i: nat)
    requires i < w && AvoidsColumn(spans, w, i)
    ensures |Before(spans, i)| + |After(spans, w, i)| == TouchCount(spans, i)
  {
    if spans != [] {
      assert AvoidsColumn(spans[1..], w, i) by {
        forall k | 0 <= k < |spans[1..]| ensures spans[1..][k] == spans[k + 1] { }
      }
      SideTouches(spans[1..], w, i);
    }
  }

  /** Above and below, the numbers found are those of the spans whose box
      holds the column, in order. */
  lemma {:induction false} TopRangeNums(spans: seq<Span>, i: nat)
    ensures Intersecting(spans, TopRange(i)) == TouchNums(spans, i)
  {
    if spans != [] {
      TopRangeNums(spans[1..], i);
    }
  }

  /** On the star's own line, the numbers found before and after it are,
      together, those of the spans whose box holds the star. */
  lemma {:induction false} SideNums(spans: seq<Span>, w: nat, i: nat)
    requires i < w && AvoidsColumn(spans, w, i)
    ensures multiset(Before(spans, i)) + multiset(After(spans, w, i)) == multiset(TouchNums(spans, i))
  {
    if spans != [] {
      var s, rest := spans[0], spans[1..];
      assert AvoidsColumn(rest, w, i) by {
        forall k | 0 <= k < |rest| ensures rest[k] == spans[k + 1] { }
      }
      SideNums(rest, w, i);
      var b := if i != 0 && IntersectRanges((i - 1, i - 1), (s.first, s.last)) then [s.num] else [];
      var a := if i != w - 1 && IntersectRanges((i + 1, i + 1), (s.first, s.last)) then [s.num] else [];
      var t := if Touches(s, i) then [s.num] else [];
      assert Before(spans, i) == b + Before(rest, i);
      assert After(spans, w, i) == a + After(rest, w, i);
      assert TouchNums(spans, i) == t + TouchNums(rest, i);
      assert s.first <= s.last < w && !(s.first <= i <= s.last);
      SideOne(s, w, i);
      JoinSides(b, Before(rest, i), a, After(rest, w, i), t, TouchNums(rest, i));
    }
  }

  /** A span clear of column `i` touches it from exactly one side, or not
      at all. */
  lemma SideOne(s: Span, w: nat, i: nat)
    requires i < w && s.first <= s.last < w && !(s.first <= i <= s.last)
    ensures multiset(if i != 0 && IntersectRanges((i - 1, i - 1), (s.first, s.last)) then [s.num] else [])
      + multiset(if i != w - 1 && IntersectRanges((i + 1, i + 1), (s.first, s.last)) then [s.num] else [])
      == multiset(if Touches(s, i) then [s.num] else [])
  {
  }

  /** Multisets of joined lists add up part by part. */
  lemma JoinSides(b: seq<nat>, restB: seq<nat>, a: seq<nat>, restA: seq<nat>, t: seq<nat>, restT: seq<nat>)
    requires multiset(b) + multiset(a) == multiset(t)
    requires multiset(restB) + multiset(restA) == multiset(restT)
    ensures multiset(b + restB) + multiset(a + restA) == multiset(t + restT)
  {
  }

  /** The star at `(li, i)` sees the numbers of exactly the spans whose box
      holds it, each once. */
  lemma AdjacentMultiset(lines: seq<string>, numIdx: seq<seq<Span>>, li: nat, i: nat)
    requires |numIdx| == |lines| && li < |lines| && i < |lines[li]|
    requires AvoidsColumn(numIdx[li], |lines[li]|, i)
    ensures multiset(AdjacentNums(lines, numIdx, li, i)) == multiset(TouchingNums(numIdx, li, i))
  {
    var top := if li > 0 then FindIntersectingOnLine(numIdx, li - 1, TopRange(i)) else [];
    var bot := if li < |lines| - 1 then FindIntersectingOnLine(numIdx, li + 1, TopRange(i)) else [];
    if li > 0 {
      TopRangeNums(numIdx[li - 1], i);
    }
    if li < |lines| - 1 {
      TopRangeNums(numIdx[li + 1], i);
    }
    var before, after := Before(numIdx[li], i), After(numIdx[li], |lines[li]|, i);
    assert AdjacentNums(lines, numIdx, li, i) == top + before + after + bot;
    assert TouchingNums(numIdx, li, i) == top + TouchNums(numIdx[li], i) + bot;
    SideNums(numIdx[li], |lines[li]|, i);
    JoinMiddle(top, before, after, bot, TouchNums(numIdx[li], i));
  }

  /** Multisets of joined lists: two middle parts may be replaced by one of
      the same multiset. */
  lemma JoinMiddle(top: seq<nat>, before: seq<nat>, after: seq<nat>, bot: seq<nat>, mid: seq<nat>)
    requires multiset(before) + multiset(after) == multiset(mid)
    ensures multiset(top + before + after + bot) == multiset(top + mid + bot)
  {
  }

  /** The star at `(li, i)` sees exactly the numbers whose box holds it. */
  lemma AdjacentCount(lines: seq<string>, numIdx: seq<seq<Span>>, li: nat, i: nat)
    requires |numIdx| == |lines| && li < |lines| && i < |lines[li]|
    requires AvoidsColumn(numIdx[li], |lines[li]|, i)
    ensures |AdjacentNums(lines, numIdx, li, i)| == TouchTotal(numIdx, li, i)
  {
    if li > 0 {
      TopRangeTouches(numIdx[li - 1], i);
    }
    if li < |lines| - 1 {
      TopRangeTouches(numIdx[li + 1], i);
    }
    SideTouches(numIdx[li], |lines[li]|, i);
  }

  /** A '*' never lies inside a digit run. */
  lemma StarAvoidsRuns(ln: string, i: nat)
    requires i < |ln| && ln[i] == '*'
    ensures AvoidsColumn(Runs(ln), |ln|, i)
  {
    RunsSpec(ln);
  }

  /** The ratios of the stars of line `li` from column `i` on; a star that
      is not a gear adds 0. */
  function StarSum(lines: seq<string>, numIdx: seq<seq<Span>>, li: nat, i: nat): nat
    requires |numIdx| == |lines| && li < |lines| && i <= |lines[li]|
    decreases |lines[li]| - i
  {
    if i == |lines[li]| then 0
    else
      var here := if lines[li][i] == '*' then GearRatio(lines, numIdx, li, i) else None;
      (if here.Some? then here.value else 0) + StarSum(lines, numIdx, li, i + 1)
  }

  function RatioSums(lines: seq<string>, numIdx: seq<seq<Span>>, li: nat): nat
    requires |numIdx| == |lines| && li <= |lines|
    decreases |lines| - li
  {
    if li == |lines| then 0 else StarSum(lines, numIdx, li, 0) + RatioSums(lines, numIdx, li + 1)
  }

  /** Part 2: the sum of all gear ratios; `None` is a run too large for a
      `u32`. */
  function Part2(input: seq<string>): Option<nat> {
    var lines := TrimmedLines(input);
    match MapAll(lines, LineNumbers)
    case None => None
    case Some(numIdx) => Some(RatioSums(lines, numIdx, 0))
  }

  /** Part 2 has an answer exactly when every number fits a `u32`; it is
      the sum of the gear ratios over the digit runs of each line. */
  lemma Part2Spec(input: seq<string>)
    ensures var lines := TrimmedLines(input);
      Part2(input).Some? <==> forall k :: 0 <= k < |lines| ==> FitU32(Runs(lines[k]))
    ensures var lines := TrimmedLines(input);
      Part2(input).Some? ==> Part2(input).value == RatioSums(lines, seq(|lines|, k requires 0 <= k < |lines| => Runs(lines[k])), 0)
  {
    AllLineNumbers(TrimmedLines(input));
  }

  lemma {:induction false} StarSumNoStars(lines: seq<string>, numIdx: seq<seq<Span>>, li: nat, i: nat)
    requires |numIdx| == |lines| && li < |lines| && i <= |lines[li]|
    requires '*' !in lines[li]
    ensures StarSum(lines, numIdx, li, i) == 0
    decreases |lines[li]| - i
  {
    if i < |lines[li]| {
      StarSumNoStars(lines, numIdx, li, i + 1);
    }
  }

  lemma {:induction false} RatioSumsNoStars(lines: seq<string>, numIdx: seq<seq<Span>>, li: nat)
    requires |numIdx| == |lines| && li <= |lines|
    requires forall k :: 0 <= k < |lines| ==> '*' !in lines[k]
    ensures RatioSums(lines, numIdx, li) == 0
    decreases |lines| - li
  {
    if li < |lines| {
      StarSumNoStars(lines, numIdx, li, 0);
      RatioSumsNoStars(lines, numIdx, li + 1);
    }
  }

  /** A schematic without a '*' has no gears: part 2 is 0 whenever it
      has an answer. */
  lemma Part2NoStars(input: seq<string>)
    requires forall k :: 0 <= k < |TrimmedLines(input)| ==> '*' !in TrimmedLines(input)[k]
    ensures Part2(input).Some? ==> Part2(input).value == 0
  {
    var lines := TrimmedLines(input);
    Part2Spec(input);
    RatioSumsNoStars(lines, seq(|lines|, k requires 0 <= k < |lines| => Runs(lines[k])), 0);
  }
}
