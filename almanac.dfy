/** problem_5: translating seed numbers and seed ranges through an ordered
    chain of maps, each made of lines "dest_start src_start range_len".
    All values are `u64`: the model keeps them as `nat` and turns every
    addition that could overflow into a precondition. An inclusive end that
    underflows at 0 is a panic of the source and `None` (or `Underflow`)
    here. */
module Almanac {
  import opened Wrappers
  import opened Text

  /** Largest `u64`. */
  const U64_MAX: nat := 0xFFFF_FFFF_FFFF_FFFF

  predicate IsU64(x: int) {
    0 <= x <= U64_MAX
  }

  // ------------------------------------------------------------------ NumRange

  /** `NumRange::new(start, len)`: the half-open span [start, start + len). */
  datatype NumRange = NumRange(start: nat, len: nat) {

    /** `end_excl`: one past the last number; it equals the start exactly
        for the empty range, and never comes before it. */
    function EndExcl(): (e: nat)
      ensures start <= e
      ensures e == start <==> len == 0
    {
      start + len
    }

    /** `end_incl`; it underflows (panics) for the empty range at 0. */
    function EndIncl(): (e: nat)
      requires EndExcl() > 0
      ensures e + 1 == EndExcl()
    {
      EndExcl() - 1
    }

    predicate Contains(x: int) {
      start <= x < EndExcl()
    }

    /** `intersects`: not disjoint, where disjointness compares inclusive ends. */
    predicate Intersects(other: NumRange)
      requires EndExcl() > 0 && other.EndExcl() > 0
    {
      var isDisjoint := EndIncl() < other.start || other.EndIncl() < start;
      !isDisjoint
    }
  }

  /** `from_excl`: needs `start <= end_excl` (the length is a `u64` difference). */
  function FromExcl(start: nat, endExcl: nat): (r: NumRange)
    requires start <= endExcl
    ensures r.start == start && r.EndExcl() == endExcl
  {
    NumRange(start, endExcl - start)
  }

  /** `from_incl`: `end_incl + 1` must not overflow. */
  function FromIncl(start: nat, endIncl: nat): (r: NumRange)
    requires endIncl + 1 <= U64_MAX && start <= endIncl + 1
    ensures r.start == start && r.EndExcl() == endIncl + 1
  {
    FromExcl(start, endIncl + 1)
  }

  /** The range's end can be computed without `u64` overflow. */
  predicate RangeFits(r: NumRange) {
    r.EndExcl() <= U64_MAX
  }

  /** A range the range path may be given: it fits and is not empty. */
  predicate Live(r: NumRange) {
    r.len > 0 && RangeFits(r)
  }

  predicate AllLive(rs: seq<NumRange>) {
    forall i :: 0 <= i < |rs| ==> Live(rs[i])
  }

  predicate AllFit(rs: seq<NumRange>) {
    forall i :: 0 <= i < |rs| ==> RangeFits(rs[i])
  }

  function TotalLen(rs: seq<NumRange>): nat {
    if rs == [] then 0 else rs[0].len + TotalLen(rs[1..])
  }

  lemma {:induction false} TotalLenConcat(a: seq<NumRange>, b: seq<NumRange>)
    ensures TotalLen(a + b) == TotalLen(a) + TotalLen(b)
    decreases |a|
  {
    if a != [] {
      assert (a + b)[0] == a[0];
      assert (a + b)[1..] == a[1..] + b;
      TotalLenConcat(a[1..], b);
    } else {
      assert a + b == b;
    }
  }

  /** Intersection is the usual half-open overlap test, and for non-empty
      ranges it holds exactly when they share a number. */
  lemma IntersectsIff(a: NumRange, b: NumRange)
    requires a.EndExcl() > 0 && b.EndExcl() > 0
    ensures a.Intersects(b) <==> a.start < b.EndExcl() && b.start < a.EndExcl()
    ensures a.len > 0 && b.len > 0 ==>
      (a.Intersects(b) <==> exists x :: a.Contains(x) && b.Contains(x))
  {
    if a.len > 0 && b.len > 0 && a.Intersects(b) {
      var x := if a.start < b.start then b.start else a.start;
      assert a.Contains(x) && b.Contains(x);
    }
  }

  /** `pieces` cover [from, to) one after another, left to right, with no
      gap and no overlap. */
  predicate Tiles(pieces: seq<NumRange>, from: nat, to: nat)
    decreases |pieces|
  {
    if pieces == [] then from == to
    else pieces[0].start == from && Tiles(pieces[1..], pieces[0].EndExcl(), to)
  }

  lemma {:induction false} TilesLength(pieces: seq<NumRange>, from: nat, to: nat)
    requires Tiles(pieces, from, to)
    ensures from <= to && TotalLen(pieces) == to - from
    decreases |pieces|
  {
    if pieces != [] {
      TilesLength(pieces[1..], pieces[0].EndExcl(), to);
    }
  }

  lemma {:induction false} TilesWithin(pieces: seq<NumRange>, from: nat, to: nat, i: nat)
    requires Tiles(pieces, from, to) && i < |pieces|
    ensures from <= pieces[i].start && pieces[i].EndExcl() <= to
    decreases |pieces|
  {
    TilesLength(pieces, from, to);
    if i > 0 {
      TilesWithin(pieces[1..], pieces[0].EndExcl(), to, i - 1);
    } else {
      TilesLength(pieces[1..], pieces[0].EndExcl(), to);
    }
  }

  lemma {:induction false} TilesCover(pieces: seq<NumRange>, from: nat, to: nat, x: nat)
    requires Tiles(pieces, from, to) && from <= x < to
    ensures exists i :: 0 <= i < |pieces| && pieces[i].Contains(x)
    decreases |pieces|
  {
    if !pieces[0].Contains(x) {
      TilesCover(pieces[1..], pieces[0].EndExcl(), to, x);
      var i :| 0 <= i < |pieces[1..]| && pieces[1..][i].Contains(x);
      assert pieces[i + 1].Contains(x);
    }
  }

  // ------------------------------------------------------------------- MapLine

  /** What `apply_line` does with one number: maps it, leaves it to the
      next line (`None` in the source), or panics computing the inclusive
      source end. */
  datatype LineResult = Mapped(value: nat) | Uncovered | Underflow

  /** One map line: numbers in [src_start, src_start + range_len) move by
      `dest_start - src_start`. */
  datatype MapLine = MapLine(destStart: nat, srcStart: nat, rangeLen: nat) {

    function SrcEndExcl(): nat {
      srcStart + rangeLen
    }

    function SrcRange(): NumRange {
      NumRange(srcStart, rangeLen)
    }

    /** `src_contains`: the `&&` computes the inclusive source end only once
        `src_start <= num`, and that end underflows (`None`) when the source
        ends at 0. */
    function SrcContains(num: nat): (r: Option<bool>)
      ensures r.None? <==> srcStart <= num && SrcEndExcl() == 0
      ensures r.Some? ==> (r.value <==> srcStart <= num < SrcEndExcl())
    {
      if !(srcStart <= num) then Some(false)
      else if SrcEndExcl() == 0 then None
      else Some(num <= SrcEndExcl() - 1)
    }

    /** `apply_line`: the translated number when the source contains it. The
        line `d 0 0` panics on every number. */
    function ApplyLine(num: nat): (r: LineResult)
      requires PointFits()
      ensures r.Underflow? <==> srcStart == 0 && rangeLen == 0
      ensures r.Mapped? <==> srcStart <= num < srcStart + rangeLen
      ensures r.Mapped? ==> r.value == destStart + (num - srcStart) && IsU64(r.value)
    {
      match SrcContains(num)
      case None => Underflow
      case Some(contained) =>
        if contained then Mapped(destStart + (num - srcStart)) else Uncovered
    }

    /** What the point path needs so that no `u64` addition overflows. */
    predicate PointFits() {
      && IsU64(destStart) && IsU64(srcStart) && IsU64(rangeLen)
      && SrcEndExcl() <= U64_MAX
      && destStart + rangeLen <= U64_MAX + 1
    }

    /** What the range path needs so that no `u64` addition overflows: the
        source end and the destination end of the line both fit. */
    predicate RangeFitsLine() {
      && SrcEndExcl() <= U64_MAX
      && destStart + rangeLen <= U64_MAX
    }

    /** `apply_line_r_inner` panics on `r1`: an inclusive end underflows (a
        range ending at 0), or an empty line lies strictly inside `r1`, or an
        empty `r1` lies strictly inside the source. In the last two cases
        `intersects` holds but none of the four cases does, and the
        `unreachable!()` is reached. */
    predicate InnerPanics(r1: NumRange) {
      || SrcEndExcl() == 0 || r1.EndExcl() == 0
      || (rangeLen == 0 && r1.start < srcStart < r1.EndExcl())
      || (r1.len == 0 && srcStart < r1.start < SrcEndExcl())
    }

    /** `priv_apply_range_contained`: move a range by the line's offset. */
    function ApplyContained(r: NumRange): (q: NumRange)
      requires srcStart <= r.start && destStart + (r.start - srcStart) <= U64_MAX
      ensures q.len == r.len && q.start + srcStart == r.start + destStart
    {
      var startOffset := r.start - srcStart;
      NumRange(destStart + startOffset, r.len)
    }

    /** Output piece `q` comes from input piece `p`: either `p` is disjoint
        from the source and kept as it is, or `p` lies inside the source and
        is shifted by `dest_start - src_start`, keeping its length. */
    predicate Explains(p: NumRange, q: NumRange) {
      || (q == p && (p.EndExcl() <= srcStart || SrcEndExcl() <= p.start))
      || (srcStart <= p.start && p.EndExcl() <= SrcEndExcl()
          && q == NumRange(p.start + destStart - srcStart, p.len))
    }

    /** `out` is the image of a left-to-right tiling `pre` of `r1`. */
    predicate Decomposes(r1: NumRange, pre: seq<NumRange>, out: seq<NumRange>) {
      && |pre| == |out|
      && Tiles(pre, r1.start, r1.EndExcl())
      && forall i :: 0 <= i < |pre| ==> Explains(pre[i], out[i])
    }

    /** `apply_line_r_inner`, with `None` for the `unreachable!()` at the end
        of its case analysis. Both ends must be computable (no `u64`
        overflow, and no underflow of an inclusive end). */
    function ApplyLineRInner(r1: NumRange): (r: Option<seq<NumRange>>)
      requires RangeFitsLine() && RangeFits(r1)
      ensures r.None? <==> InnerPanics(r1)
      ensures r.Some? ==> 1 <= |r.value| <= 3 && exists pre :: Decomposes(r1, pre, r.value)
    {
      if SrcEndExcl() == 0 || r1.EndExcl() == 0 then None
      else
      var rs := SrcRange();
      CasesCover(r1);
      if !rs.Intersects(r1) then
        assert Explains(r1, r1);
        assert Decomposes(r1, [r1], [r1]);
        Some([r1])
      else if rs.start <= r1.start && r1.start <= rs.EndIncl() && rs.EndIncl() <= r1.EndIncl() then
        // self overlaps the left end of r1: shift the left part, keep the right part
        var leftApply := FromIncl(r1.start, rs.EndIncl());
        var rightSame := FromIncl(rs.EndExcl(), r1.EndIncl());
        var out := [ApplyContained(leftApply), rightSame];
        LeftOverlap(r1, leftApply, rightSame);
        Some(out)
      else if r1.start <= rs.start && rs.start <= r1.EndIncl() && r1.EndIncl() <= rs.EndIncl() then
        // self overlaps the right end of r1: keep the left part, shift the right part
        var leftSame := FromExcl(r1.start, rs.start);
        var rightApply := FromIncl(rs.start, r1.EndIncl());
        var out := [leftSame, ApplyContained(rightApply)];
        RightOverlap(r1, leftSame, rightApply);
        Some(out)
      else if rs.start <= r1.start && r1.start <= r1.EndIncl() && r1.EndIncl() <= rs.EndIncl() then
        // self contains r1: shift all of it
        var out := [ApplyContained(r1)];
        assert Explains(r1, out[0]);
        assert Decomposes(r1, [r1], out);
        Some(out)
      else if r1.start <= rs.start && rs.start <= rs.EndIncl() && rs.EndIncl() <= r1.EndIncl() then
        // r1 contains self: keep both ends, shift the middle
        var leftSame := FromExcl(r1.start, rs.start);
        var midApply := FromIncl(rs.start, rs.EndIncl());
        var rightSame := FromIncl(rs.EndExcl(), r1.EndIncl());
        var out := [leftSame, ApplyContained(midApply), rightSame];
        Contains(r1, leftSame, midApply, rightSame);
        Some(out)
      else
        None
    }

    /** Once both inclusive ends exist, the `unreachable!()` is reached
        exactly in the panic cases: the ranges intersect and none of the four
        overlap cases holds. */
    lemma CasesCover(r1: NumRange)
      requires SrcEndExcl() > 0 && r1.EndExcl() > 0
      ensures var rs := SrcRange(); !InnerPanics(r1) <==>
        || !rs.Intersects(r1)
        || (rs.start <= r1.start && r1.start <= rs.EndIncl() && rs.EndIncl() <= r1.EndIncl())
        || (r1.start <= rs.start && rs.start <= r1.EndIncl() && r1.EndIncl() <= rs.EndIncl())
        || (rs.start <= r1.start && r1.start <= r1.EndIncl() && r1.EndIncl() <= rs.EndIncl())
        || (r1.start <= rs.start && rs.start <= rs.EndIncl() && rs.EndIncl() <= r1.EndIncl())
    {
    }

    lemma LeftOverlap(r1: NumRange, leftApply: NumRange, rightSame: NumRange)
      requires SrcEndExcl() <= U64_MAX && destStart + rangeLen <= U64_MAX && r1.EndExcl() > 0
      requires srcStart <= r1.start && r1.start < SrcEndExcl() && SrcEndExcl() <= r1.EndExcl()
      requires leftApply == NumRange(r1.start, SrcEndExcl() - r1.start)
      requires rightSame == NumRange(SrcEndExcl(), r1.EndExcl() - SrcEndExcl())
      ensures Decomposes(r1, [leftApply, rightSame], [ApplyContained(leftApply), rightSame])
    {
      assert Explains(leftApply, ApplyContained(leftApply)) && Explains(rightSame, rightSame);
      assert Tiles([rightSame], leftApply.EndExcl(), r1.EndExcl());
    }

    lemma RightOverlap(r1: NumRange, leftSame: NumRange, rightApply: NumRange)
      requires SrcEndExcl() <= U64_MAX && destStart + rangeLen <= U64_MAX && r1.EndExcl() > 0
      requires r1.start <= srcStart && srcStart < r1.EndExcl() && r1.EndExcl() <= SrcEndExcl()
      requires leftSame == NumRange(r1.start, srcStart - r1.start)
      requires rightApply == NumRange(srcStart, r1.EndExcl() - srcStart)
      ensures Decomposes(r1, [leftSame, rightApply], [leftSame, ApplyContained(rightApply)])
    {
      assert Explains(leftSame, leftSame) && Explains(rightApply, ApplyContained(rightApply));
      assert Tiles([rightApply], leftSame.EndExcl(), r1.EndExcl());
    }

    lemma Contains(r1: NumRange, leftSame: NumRange, midApply: NumRange, rightSame: NumRange)
      requires SrcEndExcl() <= U64_MAX && destStart + rangeLen <= U64_MAX
      requires r1.start <= srcStart && SrcEndExcl() <= r1.EndExcl()
      requires leftSame == NumRange(r1.start, srcStart - r1.start)
      requires midApply == NumRange(srcStart, rangeLen)
      requires rightSame == NumRange(SrcEndExcl(), r1.EndExcl() - SrcEndExcl())
      ensures Decomposes(r1, [leftSame, midApply, rightSame],
        [leftSame, ApplyContained(midApply), rightSame])
    {
      var out := [leftSame, ApplyContained(midApply), rightSame];
      assert Explains(leftSame, out[0]) && Explains(midApply, out[1]) && Explains(rightSame, out[2]);
      assert Tiles([rightSame], midApply.EndExcl(), r1.EndExcl());
      assert [midApply, rightSame][1..] == [rightSame];
      assert Tiles([midApply, rightSame], leftSame.EndExcl(), r1.EndExcl());
      assert [leftSame, midApply, rightSame][1..] == [midApply, rightSame];
    }

    /** Output piece `q` comes from some part of `r1`. */
    ghost predicate FromPartOf(r1: NumRange, q: NumRange) {
      exists p :: WithinRange(p, r1) && Explains(p, q)
    }

    /** `apply_line_r_inner` panics on some range of `rlist`. */
    predicate AnyPanics(rlist: seq<NumRange>) {
      exists i :: 0 <= i < |rlist| && InnerPanics(rlist[i])
    }

    /** `apply_line_r`: the pieces of `apply_line_r_inner` without the empty
        ones, `None` when it panics. Every piece is live, each comes from a
        part of `r1` as `Explains` says, and the lengths add up to `r1.len`. */
    function ApplyLineR(r1: NumRange): (r: Option<seq<NumRange>>)
      requires RangeFitsLine() && RangeFits(r1)
      ensures r.None? <==> InnerPanics(r1)
      ensures r.Some? ==> AllLive(r.value) && TotalLen(r.value) == r1.len
      ensures r.Some? ==> forall i :: 0 <= i < |r.value| ==> FromPartOf(r1, r.value[i])
    {
      if ApplyLineRInner(r1).None? then None
      else
      var inner := ApplyLineRInner(r1).value;
      var pre :| Decomposes(r1, pre, inner);
      TilesLength(pre, r1.start, r1.EndExcl());
      forall i | 0 <= i < |pre| ensures WithinRange(pre[i], r1) {
        TilesWithin(pre, r1.start, r1.EndExcl(), i);
      }
      ExplainedPieces(r1, pre, inner);
      FilterLiveKeepsLength(inner);
      var out := FilterLive(inner);
      forall i | 0 <= i < |out| ensures FromPartOf(r1, out[i]) {
        var j :| 0 <= j < |inner| && inner[j] == out[i];
        assert WithinRange(pre[j], r1) && Explains(pre[j], out[i]);
      }
      Some(out)
    }

    /** `apply_line_r_list`: `apply_line_r` on every range, flattened in
        order; `None` when it panics on one of them. No number is lost or
        duplicated: the total length is kept. */
    function ApplyLineRList(rlist: seq<NumRange>): (r: Option<seq<NumRange>>)
      requires RangeFitsLine() && AllFit(rlist)
      ensures r.None? <==> AnyPanics(rlist)
      ensures r.Some? ==> AllLive(r.value) && TotalLen(r.value) == TotalLen(rlist)
    {
      if rlist == [] then Some([])
      else
        assert forall i :: 1 <= i < |rlist| ==> rlist[1..][i - 1] == rlist[i];
        match ApplyLineR(rlist[0])
        case None => None
        case Some(head) =>
          match ApplyLineRList(rlist[1..])
          case None => None
          case Some(tail) =>
            TotalLenConcat(head, tail);
            Some(head + tail)
    }

    /** Explained pieces of a part of a fitting range fit, and keep the
        total length. */
    lemma {:induction false} ExplainedPieces(r1: NumRange, pre: seq<NumRange>, out: seq<NumRange>)
      requires RangeFitsLine() && RangeFits(r1)
      requires |pre| == |out| && forall i :: 0 <= i < |pre| ==> Explains(pre[i], out[i])
      requires forall i :: 0 <= i < |pre| ==> WithinRange(pre[i], r1)
      ensures forall i :: 0 <= i < |out| ==> RangeFits(out[i])
      ensures TotalLen(out) == TotalLen(pre)
      decreases |pre|
    {
      if pre != [] {
        assert Explains(pre[0], out[0]) && WithinRange(pre[0], r1);
        ExplainedPieces(r1, pre[1..], out[1..]);
        assert forall i :: 1 <= i < |out| ==> out[1..][i - 1] == out[i];
      }
    }
  }

  /** `p` is a part of `r`. */
  predicate WithinRange(p: NumRange, r: NumRange) {
    r.start <= p.start && p.EndExcl() <= r.EndExcl()
  }

  /** The `.filter(|r| r.len > 0)` of `apply_line_r`. */
  function FilterLive(rs: seq<NumRange>): (out: seq<NumRange>)
    ensures forall i :: 0 <= i < |out| ==> out[i].len > 0 && out[i] in rs
  {
    if rs == [] then []
    else if rs[0].len > 0 then [rs[0]] + FilterLive(rs[1..])
    else FilterLive(rs[1..])
  }

  lemma {:induction false} FilterLiveKeepsLength(rs: seq<NumRange>)
    requires forall i :: 0 <= i < |rs| ==> RangeFits(rs[i])
    ensures AllLive(FilterLive(rs)) && TotalLen(FilterLive(rs)) == TotalLen(rs)
    decreases |rs|
  {
    if rs != [] {
      assert forall i :: 1 <= i < |rs| ==> rs[1..][i - 1] == rs[i];
      FilterLiveKeepsLength(rs[1..]);
      if rs[0].len > 0 {
        var out := FilterLive(rs);
        assert out[0] == rs[0] && out[1..] == FilterLive(rs[1..]);
      }
    }
  }

  lemma {:induction false} FilterLiveKeeps(rs: seq<NumRange>, j: nat)
    requires j < |rs| && rs[j].len > 0
    ensures rs[j] in FilterLive(rs)
    decreases |rs|
  {
    if j > 0 {
      FilterLiveKeeps(rs[1..], j - 1);
    }
  }

  /** Where one line sends a number: its image if the source covers it,
      the number itself otherwise. */
  function PointImage(l: MapLine, x: nat): nat
    requires l.PointFits()
  {
    match l.ApplyLine(x) case Mapped(v) => v case _ => x
  }

  /** Some range of `out` contains `y`. */
  ghost predicate Covers(out: seq<NumRange>, y: nat) {
    exists i :: 0 <= i < |out| && out[i].Contains(y)
  }

  /** Where one line sends a number of `r1` lies in a piece of
      `apply_line_r(r1)`. */
  lemma ApplyLineRImage(l: MapLine, r1: NumRange, x: nat)
    requires l.RangeFitsLine() && RangeFits(r1) && r1.Contains(x) && !l.InnerPanics(r1)
    ensures l.PointFits()
    ensures Covers(l.ApplyLineR(r1).value, PointImage(l, x))
  {
    var inner := l.ApplyLineRInner(r1).value;
    var pre: seq<NumRange> :| l.Decomposes(r1, pre, inner);
    TilesCover(pre, r1.start, r1.EndExcl(), x);
    var j :| 0 <= j < |pre| && pre[j].Contains(x);
    assert l.Explains(pre[j], inner[j]);
    var y := PointImage(l, x);
    assert inner[j].Contains(y);
    FilterLiveKeeps(inner, j);
    var out := l.ApplyLineR(r1).value;
    assert out == FilterLive(inner);
    var i :| 0 <= i < |out| && out[i] == inner[j];
    assert out[i].Contains(y);
  }

  /** The same for a list of ranges. */
  lemma ApplyLineRListImage(l: MapLine, rlist: seq<NumRange>, k: nat, x: nat)
    requires l.RangeFitsLine() && AllFit(rlist) && k < |rlist| && rlist[k].Contains(x)
    requires l.ApplyLineRList(rlist).Some?
    ensures l.PointFits()
    ensures Covers(l.ApplyLineRList(rlist).value, PointImage(l, x))
  {
    ApplyLineRListImageOf(l, rlist, l.ApplyLineRList(rlist).value, k, x);
  }

  /** The same, with the output of `apply_line_r_list` named `out`. */
  lemma {:induction false} ApplyLineRListImageOf(l: MapLine, rlist: seq<NumRange>, out: seq<NumRange>, k: nat, x: nat)
    requires l.RangeFitsLine() && AllFit(rlist) && k < |rlist| && rlist[k].Contains(x)
    requires l.ApplyLineRList(rlist) == Some(out)
    ensures l.PointFits()
    ensures Covers(out, PointImage(l, x))
    decreases |rlist|
  {
    if k == 0 {
      HeadImage(l, rlist, out, x);
    } else {
      ApplyLineRListCons(l, rlist);
      var rest := rlist[1..];
      var tail := l.ApplyLineRList(rest).value;
      assert k - 1 < |rest| && rest[k - 1] == rlist[k];
      ApplyLineRListImageOf(l, rest, tail, k - 1, x);
      TailCovers(l, rlist, out, PointImage(l, x));
    }
  }

  /** The image of a number of the first range is covered by the output. */
  lemma HeadImage(l: MapLine, rlist: seq<NumRange>, out: seq<NumRange>, x: nat)
    requires l.RangeFitsLine() && AllFit(rlist) && rlist != [] && rlist[0].Contains(x)
    requires l.ApplyLineRList(rlist) == Some(out)
    ensures l.PointFits()
    ensures Covers(out, PointImage(l, x))
  {
    ApplyLineRListCons(l, rlist);
    ApplyLineRImage(l, rlist[0], x);
    CoversConcat(l.ApplyLineR(rlist[0]).value, l.ApplyLineRList(rlist[1..]).value, PointImage(l, x));
  }

  /** What the output of the other ranges covers, the whole output covers. */
  lemma TailCovers(l: MapLine, rlist: seq<NumRange>, out: seq<NumRange>, y: nat)
    requires l.RangeFitsLine() && AllFit(rlist) && rlist != []
    requires l.ApplyLineRList(rlist) == Some(out)
    requires AllFit(rlist[1..]) && l.ApplyLineRList(rlist[1..]).Some?
    requires Covers(l.ApplyLineRList(rlist[1..]).value, y)
    ensures Covers(out, y)
  {
    ApplyLineRListCons(l, rlist);
    CoversConcat(l.ApplyLineR(rlist[0]).value, l.ApplyLineRList(rlist[1..]).value, y);
  }

  /** A number covered by either part is covered by the concatenation. */
  lemma CoversConcat(head: seq<NumRange>, tail: seq<NumRange>, y: nat)
    requires Covers(head, y) || Covers(tail, y)
    ensures Covers(head + tail, y)
  {
    if Covers(head, y) {
      var i :| 0 <= i < |head| && head[i].Contains(y);
      assert (head + tail)[i] == head[i];
    } else {
      var i :| 0 <= i < |tail| && tail[i].Contains(y);
      assert (head + tail)[|head| + i] == tail[i];
    }
  }

  /** A non-empty list of ranges goes through a line as its first range and
      then the rest. */
  lemma ApplyLineRListCons(l: MapLine, rlist: seq<NumRange>)
    requires l.RangeFitsLine() && AllFit(rlist) && rlist != []
    requires l.ApplyLineRList(rlist).Some?
    ensures RangeFits(rlist[0]) && AllFit(rlist[1..])
    ensures l.ApplyLineR(rlist[0]).Some? && l.ApplyLineRList(rlist[1..]).Some?
    ensures l.ApplyLineRList(rlist).value == l.ApplyLineR(rlist[0]).value + l.ApplyLineRList(rlist[1..]).value
  {
    assert forall i :: 1 <= i < |rlist| ==> rlist[1..][i - 1] == rlist[i];
  }

  /** The first line that does not leave `num` uncovered, as `find_map`
      stops at it: its image, or its panic. */
  function FindMap(lines: seq<MapLine>, num: nat): (r: LineResult)
    requires forall i :: 0 <= i < |lines| ==> lines[i].PointFits()
    ensures r.Uncovered? <==> forall i :: 0 <= i < |lines| ==> lines[i].ApplyLine(num).Uncovered?
    ensures !r.Uncovered? ==> exists i :: (0 <= i < |lines| && lines[i].ApplyLine(num) == r
      && forall j :: 0 <= j < i ==> lines[j].ApplyLine(num).Uncovered?)
  {
    if lines == [] then Uncovered
    else if !lines[0].ApplyLine(num).Uncovered? then lines[0].ApplyLine(num)
    else
      var r := FindMap(lines[1..], num);
      assert forall i :: 1 <= i < |lines| ==> lines[1..][i - 1] == lines[i];
      if !r.Uncovered? then
        var k :| 0 <= k < |lines| - 1 && lines[1..][k].ApplyLine(num) == r
          && forall j :: 0 <= j < k ==> lines[1..][j].ApplyLine(num).Uncovered?;
        assert lines[k + 1].ApplyLine(num) == r;
        r
      else r
  }

  /** One almanac map: a list of lines. */
  datatype FullMap = FullMap(lines: seq<MapLine>) {

    predicate PointsFit() {
      forall i :: 0 <= i < |lines| ==> lines[i].PointFits()
    }

    predicate RangesFit() {
      forall i :: 0 <= i < |lines| ==> lines[i].RangeFitsLine()
    }

    /** No line's source ends at 0, so no line panics on a number. */
    predicate NoZeroEnds() {
      forall i :: 0 <= i < |lines| ==> lines[i].SrcEndExcl() > 0
    }

    /** `apply_map`: the first line whose source covers `num` maps it;
        a number no line covers stays as it is. `None` when a line `d 0 0`
        comes first and panics. */
    function ApplyMap(num: nat): (r: Option<nat>)
      requires PointsFit()
      ensures (forall i :: 0 <= i < |lines| ==> lines[i].ApplyLine(num).Uncovered?) ==> r == Some(num)
      ensures forall i :: (0 <= i < |lines| && lines[i].ApplyLine(num).Mapped?
        && (forall j :: 0 <= j < i ==> lines[j].ApplyLine(num).Uncovered?)
        ==> r == Some(lines[i].ApplyLine(num).value))
      ensures forall i :: (0 <= i < |lines| && lines[i].ApplyLine(num).Underflow?
        && (forall j :: 0 <= j < i ==> lines[j].ApplyLine(num).Uncovered?)
        ==> r.None?)
      ensures r.None? ==> exists i :: 0 <= i < |lines| && lines[i].ApplyLine(num).Underflow?
    {
      match FindMap(lines, num)
      case Mapped(v) => Some(v)
      case Uncovered => Some(num)
      case Underflow => None
    }

    /** No line of the map is empty. */
    predicate NoEmptyLines() {
      forall i :: 0 <= i < |lines| ==> lines[i].rangeLen > 0
    }

    /** `apply_map_r`: the lines applied one after another to the whole
        list of ranges; `None` when one of them panics. */
    function ApplyMapR(rlist: seq<NumRange>): (r: Option<seq<NumRange>>)
      requires RangesFit() && AllFit(rlist)
      ensures r.Some? ==> AllFit(r.value) && TotalLen(r.value) == TotalLen(rlist)
      ensures r.Some? && (lines != [] || AllLive(rlist)) ==> AllLive(r.value)
      ensures AllLive(rlist) && NoEmptyLines() ==> r.Some?
    {
      FoldLines(lines, rlist)
    }
  }

  /** The `fold` of `apply_map_r`. Live ranges through non-empty lines never
      reach a panic. */
  function FoldLines(lines: seq<MapLine>, rlist: seq<NumRange>): (r: Option<seq<NumRange>>)
    requires forall i :: 0 <= i < |lines| ==> lines[i].RangeFitsLine()
    requires AllFit(rlist)
    ensures r.Some? ==> AllFit(r.value) && TotalLen(r.value) == TotalLen(rlist)
    ensures r.Some? && (lines != [] || AllLive(rlist)) ==> AllLive(r.value)
    ensures AllLive(rlist) && (forall i :: 0 <= i < |lines| ==> lines[i].rangeLen > 0) ==> r.Some?
  {
    if lines == [] then Some(rlist)
    else match lines[0].ApplyLineRList(rlist)
      case None => None
      case Some(next) => FoldLines(lines[1..], next)
  }

  /** Folding `a + b` is folding `a`, then `b`. */
  lemma {:induction false} FoldLinesAppend(a: seq<MapLine>, b: seq<MapLine>, rlist: seq<NumRange>)
    requires forall i :: 0 <= i < |a| ==> a[i].RangeFitsLine()
    requires forall i :: 0 <= i < |b| ==> b[i].RangeFitsLine()
    requires AllLive(rlist)
    ensures forall i :: 0 <= i < |a + b| ==> (a + b)[i].RangeFitsLine()
    ensures FoldLines(a + b, rlist) ==
      match FoldLines(a, rlist) case None => None case Some(mid) => FoldLines(b, mid)
    decreases |a|
  {
    assert forall i :: 0 <= i < |a + b| ==> (a + b)[i] == if i < |a| then a[i] else b[i - |a|];
    if a != [] {
      assert (a + b)[1..] == a[1..] + b;
      if a[0].ApplyLineRList(rlist).Some? {
        FoldLinesAppend(a[1..], b, a[0].ApplyLineRList(rlist).value);
      }
    } else {
      assert a + b == b;
    }
  }

  /** Sequential application can send a number through two lines: 12 goes
      to 27 by the first line, and the second line then takes 27 to 35,
      where the point path stops at 27. */
  lemma RangePathRemapsTwice()
    ensures var m := FullMap([MapLine(25, 10, 10), MapLine(33, 25, 10)]);
      m.PointsFit() && m.RangesFit()
      && m.ApplyMap(12) == Some(27)
      && m.ApplyMapR([NumRange(12, 1)]) == Some([NumRange(35, 1)])
  {
    var l0 := MapLine(25, 10, 10);
    var l1 := MapLine(33, 25, 10);
    RemapFirst();
    RemapSecond();
    var m := FullMap([l0, l1]);
    assert [l0, l1][1..] == [l1];
    assert m.ApplyMapR([NumRange(12, 1)]) == FoldLines([l1], [NumRange(27, 1)]);
    assert FoldLines([l1], [NumRange(27, 1)]) == FoldLines([], [NumRange(35, 1)]);
  }

  lemma RemapFirst()
    ensures MapLine(25, 10, 10).ApplyLineRList([NumRange(12, 1)]) == Some([NumRange(27, 1)])
  {
    var l := MapLine(25, 10, 10);
    assert l.ApplyLineRInner(NumRange(12, 1)) == Some([NumRange(27, 1)]);
    assert FilterLive([NumRange(27, 1)]) == [NumRange(27, 1)];
    assert l.ApplyLineR(NumRange(12, 1)) == Some([NumRange(27, 1)]);
  }

  lemma RemapSecond()
    ensures MapLine(33, 25, 10).ApplyLineRList([NumRange(27, 1)]) == Some([NumRange(35, 1)])
  {
    var l := MapLine(33, 25, 10);
    assert l.ApplyLineRInner(NumRange(27, 1)) == Some([NumRange(35, 1)]);
    assert FilterLive([NumRange(35, 1)]) == [NumRange(35, 1)];
    assert l.ApplyLineR(NumRange(27, 1)) == Some([NumRange(35, 1)]);
  }

  /** A range of length zero strictly inside a line's source matches none
      of the four cases and reaches the `unreachable!()`. */
  lemma EmptyRangeInsideIsUnreachable()
    ensures MapLine(0, 10, 10).ApplyLineRInner(NumRange(15, 0)).None?
  {
  }

  /** The `seed-to-soil` line `52 50 48` on seeds `79 14`, the line
      `50 98 2` on a range that straddles its source, and the empty line
      `50 98 0`, which leaves a range beside it alone and panics on a range
      across its start. */
  lemma ApplyLineRScenarios()
    ensures MapLine(52, 50, 48).ApplyLineR(NumRange(79, 14)) == Some([NumRange(81, 14)])
    ensures MapLine(50, 98, 2).ApplyLineR(NumRange(95, 10))
      == Some([NumRange(95, 3), NumRange(50, 2), NumRange(100, 5)])
    ensures MapLine(50, 98, 0).ApplyLineR(NumRange(79, 14)) == Some([NumRange(79, 14)])
    ensures MapLine(50, 98, 0).ApplyLineR(NumRange(95, 10)).None?
  {
    assert MapLine(50, 98, 0).ApplyLineRInner(NumRange(79, 14)) == Some([NumRange(79, 14)]);
    assert MapLine(52, 50, 48).ApplyLineRInner(NumRange(79, 14)) == Some([NumRange(81, 14)]);
    assert FilterLive([NumRange(81, 14)]) == [NumRange(81, 14)];
    assert FilterLive([NumRange(79, 14)]) == [NumRange(79, 14)];
    var three := [NumRange(95, 3), NumRange(50, 2), NumRange(100, 5)];
    assert FilterLive(three[2..]) == three[2..];
    assert FilterLive(three[1..]) == three[1..];
    assert FilterLive(three) == three;
    assert MapLine(50, 98, 2).ApplyLineRInner(NumRange(95, 10))
      == Some([NumRange(95, 3), NumRange(50, 2), NumRange(100, 5)]);
  }

  /** All the maps of the almanac, seed to location. */
  datatype MapsData = MapsData(maps: seq<FullMap>) {

    predicate PointsFit() {
      forall i :: 0 <= i < |maps| ==> maps[i].PointsFit()
    }

    predicate RangesFit() {
      forall i :: 0 <= i < |maps| ==> maps[i].RangesFit()
    }

    /** No line of any map has its source end at 0. */
    predicate NoZeroEnds() {
      forall i :: 0 <= i < |maps| ==> maps[i].NoZeroEnds()
    }

    /** `apply_maps`: the maps in order, each on the previous result;
        `None` when a line panics on the way. */
    function ApplyMaps(num: nat): (r: Option<nat>)
      requires PointsFit()
      ensures maps == [] ==> r == Some(num)
      ensures |maps| == 1 ==> r == maps[0].ApplyMap(num)
      ensures NoZeroEnds() ==> r.Some?
    {
      if |maps| == 1 then
        assert maps[1..] == [];
        assert forall v: nat :: FoldMaps(maps[1..], v) == Some(v);
        FoldMaps(maps, num)
      else FoldMaps(maps, num)
    }

    /** No line of any map is empty. */
    predicate NoEmptyLines() {
      forall i :: 0 <= i < |maps| ==> maps[i].NoEmptyLines()
    }

    /** `apply_maps_r`: the maps in order on the whole list of ranges;
        `None` when a line panics. */
    function ApplyMapsR(rlist: seq<NumRange>): (r: Option<seq<NumRange>>)
      requires RangesFit() && AllFit(rlist)
      ensures r.Some? ==> AllFit(r.value) && TotalLen(r.value) == TotalLen(rlist)
      ensures r.Some? && AllLive(rlist) ==> AllLive(r.value)
      ensures AllLive(rlist) && NoEmptyLines() ==> r.Some?
    {
      FoldMapsR(maps, rlist)
    }
  }

  /** The `fold` of `apply_maps`. */
  function FoldMaps(maps: seq<FullMap>, num: nat): (r: Option<nat>)
    requires forall i :: 0 <= i < |maps| ==> maps[i].PointsFit()
    ensures (forall i :: 0 <= i < |maps| ==> maps[i].NoZeroEnds()) ==> r.Some?
  {
    if maps == [] then Some(num)
    else
      assert forall i :: 1 <= i < |maps| ==> maps[1..][i - 1] == maps[i];
      match maps[0].ApplyMap(num)
      case None => None
      case Some(next) => FoldMaps(maps[1..], next)
  }

  function FoldMapsR(maps: seq<FullMap>, rlist: seq<NumRange>): (r: Option<seq<NumRange>>)
    requires forall i :: 0 <= i < |maps| ==> maps[i].RangesFit()
    requires AllFit(rlist)
    ensures r.Some? ==> AllFit(r.value) && TotalLen(r.value) == TotalLen(rlist)
    ensures r.Some? && AllLive(rlist) ==> AllLive(r.value)
    ensures AllLive(rlist) && (forall i :: 0 <= i < |maps| ==> maps[i].NoEmptyLines()) ==> r.Some?
  {
    if maps == [] then Some(rlist)
    else match maps[0].ApplyMapR(rlist)
      case None => None
      case Some(next) => FoldMapsR(maps[1..], next)
  }

  /** Applying the maps `a + b` is applying `a`, then `b`. */
  lemma {:induction false} ApplyMapsAppend(a: seq<FullMap>, b: seq<FullMap>, num: nat)
    requires MapsData(a).PointsFit() && MapsData(b).PointsFit()
    ensures MapsData(a + b).PointsFit()
    ensures MapsData(a + b).ApplyMaps(num) ==
      match MapsData(a).ApplyMaps(num) case None => None case Some(mid) => MapsData(b).ApplyMaps(mid)
    decreases |a|
  {
    assert forall i :: 0 <= i < |a + b| ==> (a + b)[i] == if i < |a| then a[i] else b[i - |a|];
    if a != [] {
      assert (a + b)[1..] == a[1..] + b;
      if a[0].ApplyMap(num).Some? {
        ApplyMapsAppend(a[1..], b, a[0].ApplyMap(num).value);
      }
    } else {
      assert a + b == b;
    }
  }

  /** The same for ranges. */
  lemma {:induction false} ApplyMapsRAppend(a: seq<FullMap>, b: seq<FullMap>, rlist: seq<NumRange>)
    requires MapsData(a).RangesFit() && MapsData(b).RangesFit() && AllFit(rlist)
    ensures MapsData(a + b).RangesFit()
    ensures MapsData(a + b).ApplyMapsR(rlist) ==
      match MapsData(a).ApplyMapsR(rlist) case None => None case Some(mid) => MapsData(b).ApplyMapsR(mid)
    decreases |a|
  {
    assert forall i :: 0 <= i < |a + b| ==> (a + b)[i] == if i < |a| then a[i] else b[i - |a|];
    if a != [] {
      assert (a + b)[1..] == a[1..] + b;
      if a[0].ApplyMapR(rlist).Some? {
        ApplyMapsRAppend(a[1..], b, a[0].ApplyMapR(rlist).value);
      }
    } else {
      assert a + b == b;
    }
  }

  /** The least element, as `min` and `min_by_key` find it. */
  function MinOf(xs: seq<nat>): (m: nat)
    requires xs != []
    ensures m in xs
    ensures forall i :: 0 <= i < |xs| ==> m <= xs[i]
  {
    if |xs| == 1 then xs[0]
    else
      var m := MinOf(xs[1..]);
      assert forall i :: 1 <= i < |xs| ==> xs[1..][i - 1] == xs[i];
      if xs[0] <= m then xs[0] else m
  }

  /** The location of every seed; `None` when a line panics on one. */
  function Locations(seeds: seq<nat>, maps: MapsData): (locs: Option<seq<nat>>)
    requires maps.PointsFit()
    ensures locs.Some? <==> forall i :: 0 <= i < |seeds| ==> maps.ApplyMaps(seeds[i]).Some?
    ensures locs.Some? ==> |locs.value| == |seeds|
    ensures locs.Some? ==> forall i :: 0 <= i < |seeds| ==> maps.ApplyMaps(seeds[i]) == Some(locs.value[i])
  {
    MapAll(seeds, (seed: nat) => maps.ApplyMaps(seed))
  }

  /** Part 1: the lowest location any seed reaches; `None` without seeds
      (the `expect` on `min_by_key`) or when a line panics on a seed. */
  function Part1(seeds: seq<nat>, maps: MapsData): (r: Option<nat>)
    requires maps.PointsFit()
    ensures r.Some? <==> seeds != [] && forall i :: 0 <= i < |seeds| ==> maps.ApplyMaps(seeds[i]).Some?
    ensures r.Some? ==> exists i :: 0 <= i < |seeds| && maps.ApplyMaps(seeds[i]) == r
    ensures r.Some? ==> forall i :: 0 <= i < |seeds| ==> r.value <= maps.ApplyMaps(seeds[i]).value
  {
    if seeds == [] then None
    else match Locations(seeds, maps)
      case None => None
      case Some(locs) =>
        var m := MinOf(locs);
        var i :| 0 <= i < |locs| && locs[i] == m;
        assert maps.ApplyMaps(seeds[i]) == Some(m);
        Some(m)
  }

  /** Without a line whose source ends at 0, part 1 answers for every
      non-empty list of seeds. */
  lemma Part1Defined(seeds: seq<nat>, maps: MapsData)
    requires maps.PointsFit() && maps.NoZeroEnds()
    ensures Part1(seeds, maps).Some? <==> seeds != []
  {
  }

  /** The line `50 0 0` panics on every number that reaches it: after
      `52 50 48`, the seed 79 is mapped to 81 first, but the seed 20 reaches
      the empty line, and part 1 panics on any list holding it. */
  lemma Part1ZeroLine()
    ensures var maps := MapsData([FullMap([MapLine(52, 50, 48), MapLine(50, 0, 0)])]);
      maps.PointsFit() && Part1([79], maps) == Some(81) && Part1([20, 79], maps).None?
  {
    var m := FullMap([MapLine(52, 50, 48), MapLine(50, 0, 0)]);
    var maps := MapsData([m]);
    ZeroLineMaps();
    assert Part1([20, 79], maps).None? by {
      assert maps.ApplyMaps([20, 79][0]).None?;
    }
    Part1Single(79, maps);
  }

  /** With one seed, part 1 is that seed's location. */
  lemma Part1Single(seed: nat, maps: MapsData)
    requires maps.PointsFit()
    ensures Part1([seed], maps) == maps.ApplyMaps(seed)
  {
    var seeds := [seed];
    assert seeds[0] == seed;
    var r := Part1(seeds, maps);
    if r.Some? {
      var i :| 0 <= i < |seeds| && maps.ApplyMaps(seeds[i]) == r;
    }
  }

  /** The single map of Part1ZeroLine on the seeds 79 and 20. */
  lemma ZeroLineMaps()
    ensures var maps := MapsData([FullMap([MapLine(52, 50, 48), MapLine(50, 0, 0)])]);
      maps.PointsFit() && maps.ApplyMaps(79) == Some(81) && maps.ApplyMaps(20).None?
  {
    var m := FullMap([MapLine(52, 50, 48), MapLine(50, 0, 0)]);
    assert m.lines[0].ApplyLine(79) == Mapped(81);
    assert m.ApplyMap(79) == Some(81);
    assert m.lines[0].ApplyLine(20).Uncovered? && m.lines[1].ApplyLine(20).Underflow?;
    assert m.ApplyMap(20).None?;
  }

  /** The least start among some ranges. */
  function MinStart(rs: seq<NumRange>): (m: nat)
    requires rs != []
    ensures exists i :: 0 <= i < |rs| && rs[i].start == m
    ensures forall i :: 0 <= i < |rs| ==> m <= rs[i].start
  {
    if |rs| == 1 then rs[0].start
    else
      var m := MinStart(rs[1..]);
      assert forall i :: 1 <= i < |rs| ==> rs[1..][i - 1] == rs[i];
      if rs[0].start <= m then rs[0].start else m
  }

  /** The ranges one seed range reaches, mapped on its own; `None` when a
      line panics on the way. A non-empty seed range through maps without
      empty lines always reaches at least one range. */
  function Dest(seed: NumRange, maps: MapsData): (dest: Option<seq<NumRange>>)
    requires maps.RangesFit() && RangeFits(seed)
    ensures dest.Some? ==> AllFit(dest.value) && TotalLen(dest.value) == seed.len
    ensures dest.Some? && seed.len > 0 ==> dest.value != [] && AllLive(dest.value)
    ensures seed.len > 0 && maps.NoEmptyLines() ==> dest.Some?
  {
    assert TotalLen([seed]) == seed.len;
    var r := maps.ApplyMapsR([seed]);
    assert r.Some? && r.value == [] ==> TotalLen(r.value) == 0;
    r
  }

  /** The destinations of every seed range, `None` when one of them panics. */
  function Dests(seeds: seq<NumRange>, maps: MapsData): (dests: Option<seq<seq<NumRange>>>)
    requires maps.RangesFit() && AllFit(seeds)
    ensures dests.Some? <==> forall i :: 0 <= i < |seeds| ==> Dest(seeds[i], maps).Some?
    ensures dests.Some? ==> |dests.value| == |seeds|
    ensures dests.Some? ==> forall i :: 0 <= i < |seeds| ==> Dest(seeds[i], maps) == Some(dests.value[i])
  {
    if seeds == [] then Some([])
    else
      assert forall i :: 1 <= i < |seeds| ==> seeds[1..][i - 1] == seeds[i];
      match Dest(seeds[0], maps)
      case None => None
      case Some(d) =>
        match Dests(seeds[1..], maps)
        case None => None
        case Some(rest) => Some([d] + rest)
  }

  /** The least start over non-empty lists of ranges. */
  function MinStartOfAll(dests: seq<seq<NumRange>>): (m: nat)
    requires dests != [] && forall i :: 0 <= i < |dests| ==> dests[i] != []
    ensures exists i, j :: 0 <= i < |dests| && 0 <= j < |dests[i]| && dests[i][j].start == m
    ensures forall i, j :: 0 <= i < |dests| && 0 <= j < |dests[i]| ==> m <= dests[i][j].start
  {
    var here := MinStart(dests[0]);
    if |dests| == 1 then here
    else
      assert forall i :: 1 <= i < |dests| ==> dests[1..][i - 1] == dests[i];
      var m := MinStartOfAll(dests[1..]);
      if here <= m then here else m
  }

  /** Every seed range reaches at least one range. */
  predicate AllReach(seeds: seq<NumRange>, maps: MapsData)
    requires maps.RangesFit() && AllFit(seeds)
  {
    forall i :: 0 <= i < |seeds| ==> Dest(seeds[i], maps).Some? && Dest(seeds[i], maps).value != []
  }

  /** Part 2: the least start of all ranges the seed ranges reach, each seed
      range mapped on its own. `None` without seed ranges ("Should have
      non-empty seed_loc_v"), when a line panics on a seed range's way, or
      when a seed range reaches no range ("Expected non-zero dest"). */
  function Part2(seeds: seq<NumRange>, maps: MapsData): (r: Option<nat>)
    requires maps.RangesFit() && AllFit(seeds)
    ensures r.Some? <==> seeds != [] && AllReach(seeds, maps)
    ensures r.Some? ==> exists i, j :: (0 <= i < |seeds| && 0 <= j < |Dest(seeds[i], maps).value|
      && Dest(seeds[i], maps).value[j].start == r.value)
    ensures r.Some? ==> forall i, j :: 0 <= i < |seeds| && 0 <= j < |Dest(seeds[i], maps).value| ==>
      r.value <= Dest(seeds[i], maps).value[j].start
  {
    if seeds == [] then None
    else match Dests(seeds, maps)
      case None => None
      case Some(dests) =>
        if exists i :: 0 <= i < |dests| && dests[i] == [] then None
        else
          var m := MinStartOfAll(dests);
          var i, j :| 0 <= i < |dests| && 0 <= j < |dests[i]| && dests[i][j].start == m;
          assert Dest(seeds[i], maps).value[j].start == m;
          Some(m)
  }

  /** Non-empty seed ranges through maps without empty lines always give an
      answer. */
  lemma Part2Defined(seeds: seq<NumRange>, maps: MapsData)
    requires maps.RangesFit() && AllLive(seeds) && maps.NoEmptyLines()
    ensures Part2(seeds, maps).Some? <==> seeds != []
  {
  }

  /** The empty seed range `79 0` across the source of `52 50 48` reaches
      the `unreachable!()`. */
  lemma Part2EmptySeedAcross()
    ensures Part2([NumRange(79, 0)], MapsData([FullMap([MapLine(52, 50, 48)])])).None?
  {
    var l := MapLine(52, 50, 48);
    var seed := NumRange(79, 0);
    var maps := MapsData([FullMap([l])]);
    assert l.InnerPanics(seed);
    assert l.ApplyLineRList([seed]).None?;
    assert FullMap([l]).ApplyMapR([seed]).None?;
    assert Dest(seed, maps).None?;
    assert Dests([seed], maps).None?;
  }

  /** Beside the source of `50 98 2` the empty seed range `79 0` is
      filtered away, leaving no destination ("Expected non-zero dest"). */
  lemma Part2EmptySeedBeside()
    ensures Part2([NumRange(79, 0)], MapsData([FullMap([MapLine(50, 98, 2)])])).None?
  {
    var l := MapLine(50, 98, 2);
    var seed := NumRange(79, 0);
    var maps := MapsData([FullMap([l])]);
    assert l.ApplyLineRInner(seed) == Some([seed]);
    assert FilterLive([seed]) == [];
    assert l.ApplyLineR(seed) == Some([]);
    assert l.ApplyLineRList([seed]) == Some([]);
    assert FullMap([l]).ApplyMapR([seed]) == FoldLines([], []);
    assert Dest(seed, maps) == Some([]);
    assert Dests([seed], maps).Some? && Dests([seed], maps).value[0] == [];
  }

  /** With no maps at all the empty seed range is its own destination. */
  lemma Part2EmptySeedNoMaps()
    ensures Part2([NumRange(79, 0)], MapsData([])) == Some(79)
  {
    var seed := NumRange(79, 0);
    assert Dest(seed, MapsData([])) == Some([seed]);
    assert Dests([seed], MapsData([])).Some? && Dests([seed], MapsData([])).value[0] == [seed];
  }
}
