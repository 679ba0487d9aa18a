/** Reading the almanac text of Advent of Code 2023 day 5: number lines,
    map groups and the seeds line. */
module AlmanacInput {
  import opened Wrappers
  import opened Text
  import opened Almanac

  /** `parse_map_line`: exactly three numbers `dest src len`. */
  function ParseMapLine(line: string): (r: Option<MapLine>)
    ensures r.Some? <==> (ParseNumList(line, U64_LIMIT).Some? && |ParseNumList(line, U64_LIMIT).value| == 3)
    ensures r.Some? ==>
      ParseNumList(line, U64_LIMIT) == Some([r.value.destStart, r.value.srcStart, r.value.rangeLen])
  {
    var parsed := ParseNumList(line, U64_LIMIT);
    if parsed.Some? && |parsed.value| == 3 then
      var ns := parsed.value;
      assert ns == [ns[0], ns[1], ns[2]];
      Some(MapLine(ns[0], ns[1], ns[2]))
    else None
  }

  /** A line written as three numbers parses back to itself. */
  lemma ParseMapLineRender(l: MapLine)
    requires IsU64(l.destStart) && IsU64(l.srcStart) && IsU64(l.rangeLen)
    ensures ParseMapLine(Unwords(Render([l.destStart, l.srcStart, l.rangeLen]))) == Some(l)
  {
    var ns := [l.destStart, l.srcStart, l.rangeLen];
    var line := Unwords(Render(ns));
    ParseNumListRender(ns, U64_LIMIT);
    ParseMapLineOf(line, ns);
  }

  lemma ParseMapLineOf(line: string, ns: seq<nat>)
    requires ParseNumList(line, U64_LIMIT) == Some(ns) && |ns| == 3
    ensures ParseMapLine(line) == Some(MapLine(ns[0], ns[1], ns[2]))
  {
  }

  /** A line of numbers, told apart from a map header by its first char. */
  predicate IsNumLine(line: string)
    requires line != []
  {
    IsDigit(line[0])
  }

  function Headers(lines: seq<string>): nat
    requires forall i :: 0 <= i < |lines| ==> lines[i] != []
  {
    if lines == [] then 0 else (if IsNumLine(lines[0]) then 0 else 1) + Headers(lines[1..])
  }

  function NumLines(lines: seq<string>): seq<string>
    requires forall i :: 0 <= i < |lines| ==> lines[i] != []
  {
    if lines == [] then [] else (if IsNumLine(lines[0]) then [lines[0]] else []) + NumLines(lines[1..])
  }

  function Flatten(groups: seq<seq<string>>): seq<string> {
    if groups == [] then [] else groups[0] + Flatten(groups[1..])
  }

  /** The slice `split` of `parse_maps`: runs of number lines between
      header lines, one group more than there are headers. */
  function GroupLines(lines: seq<string>): (groups: seq<seq<string>>)
    requires forall i :: 0 <= i < |lines| ==> lines[i] != []
    ensures |groups| == 1 + Headers(lines)
    ensures Flatten(groups) == NumLines(lines)
    ensures forall g, i :: 0 <= g < |groups| && 0 <= i < |groups[g]| ==>
      groups[g][i] != [] && IsNumLine(groups[g][i])
  {
    if lines == [] then [[]]
    else
      var rest := GroupLines(lines[1..]);
      if IsNumLine(lines[0]) then
        var groups := [[lines[0]] + rest[0]] + rest[1..];
        assert groups[1..] == rest[1..];
        assert Flatten(rest) == rest[0] + Flatten(rest[1..]);
        assert Flatten(groups) == [lines[0]] + Flatten(rest);
        forall g, i | 0 <= g < |groups| && 0 <= i < |groups[g]|
          ensures groups[g][i] != [] && IsNumLine(groups[g][i])
        {
          if g == 0 && i > 0 {
            assert groups[0][i] == rest[0][i - 1];
          } else if g > 0 {
            assert groups[g] == rest[g];
          }
        }
        groups
      else
        var groups := [[]] + rest;
        assert groups[1..] == rest;
        groups
  }

  /** The lines of one map, each through `parse_map_line`. */
  function ParseGroup(group: seq<string>): (r: Option<FullMap>)
    ensures r.Some? <==> forall i :: 0 <= i < |group| ==> ParseMapLine(group[i]).Some?
    ensures r.Some? ==> |r.value.lines| == |group|
    ensures r.Some? ==> forall i :: 0 <= i < |group| ==> ParseMapLine(group[i]) == Some(r.value.lines[i])
  {
    match MapAll(group, ParseMapLine)
    case Some(ls) => Some(FullMap(ls))
    case None => None
  }

  /** Every line of every map, in order. */
  function AllLines(maps: seq<FullMap>): seq<MapLine> {
    if maps == [] then [] else maps[0].lines + AllLines(maps[1..])
  }

  /** The parsed groups hold, in order, the parses of the grouped lines. */
  lemma {:induction false} ParseGroupsFlat(groups: seq<seq<string>>)
    requires MapAll(groups, ParseGroup).Some?
    ensures var ms := MapAll(groups, ParseGroup).value;
      |AllLines(ms)| == |Flatten(groups)|
      && forall k :: 0 <= k < |Flatten(groups)| ==> ParseMapLine(Flatten(groups)[k]) == Some(AllLines(ms)[k])
    decreases |groups|
  {
    if groups != [] {
      var ms := MapAll(groups, ParseGroup).value;
      assert MapAll(groups[1..], ParseGroup).value == ms[1..];
      ParseGroupsFlat(groups[1..]);
      var g0 := groups[0];
      var l0 := ms[0].lines;
      assert ParseGroup(g0) == Some(ms[0]);
      assert Flatten(groups) == g0 + Flatten(groups[1..]);
      assert AllLines(ms) == l0 + AllLines(ms[1..]);
      forall k | 0 <= k < |Flatten(groups)|
        ensures ParseMapLine(Flatten(groups)[k]) == Some(AllLines(ms)[k])
      {
        if k < |g0| {
          assert Flatten(groups)[k] == g0[k];
          assert AllLines(ms)[k] == l0[k];
        } else {
          assert Flatten(groups)[k] == Flatten(groups[1..])[k - |g0|];
          assert AllLines(ms)[k] == AllLines(ms[1..])[k - |l0|];
        }
      }
    }
  }

  /** `parse_maps`: skip the seeds line and the first header, split the rest
      at header lines and parse each group as a map. `None` when there are
      fewer than two lines, a line is empty, or a number line does not hold
      exactly three `u64`s. */
  function ParseMaps(lines: seq<string>): (r: Option<MapsData>)
    ensures r.Some? ==> |lines| >= 2 && forall i :: 2 <= i < |lines| ==> lines[i] != []
    ensures r.Some? ==> |r.value.maps| == 1 + Headers(lines[2..])
    ensures r.Some? ==> |AllLines(r.value.maps)| == |NumLines(lines[2..])|
    ensures r.Some? ==> forall k :: 0 <= k < |NumLines(lines[2..])| ==>
      ParseMapLine(NumLines(lines[2..])[k]) == Some(AllLines(r.value.maps)[k])
  {
    if |lines| < 2 then None
    else
      var body := lines[2..];
      if exists i :: 0 <= i < |body| && body[i] == [] then None
      else
        var groups := GroupLines(body);
        match MapAll(groups, ParseGroup)
        case Some(ms) =>
          ParseGroupsFlat(groups);
          Some(MapsData(ms))
        case None => None
  }

  /** The seeds line of part 1: `seeds: ` and a list of numbers. */
  function ParseSeedsLine(ln: string): (r: Option<seq<nat>>)
    ensures r.Some? <==> (StripPrefix(ln, "seeds: ").Some?
      && ParseNumList(StripPrefix(ln, "seeds: ").value, U64_LIMIT).Some?)
    ensures r.Some? ==> forall i :: 0 <= i < |r.value| ==> IsU64(r.value[i])
  {
    match StripPrefix(ln, "seeds: ")
    case Some(rest) => ParseNumList(rest, U64_LIMIT)
    case None => None
  }

  /** Consecutive pairs `(start, len)`; a trailing odd number is dropped, as
      `tuples()` does. */
  function Pairs(nums: seq<nat>): (r: seq<NumRange>)
    ensures |r| == |nums| / 2
    ensures forall i :: 0 <= i < |r| ==> r[i] == NumRange(nums[2 * i], nums[2 * i + 1])
  {
    if |nums| < 2 then [] else
      var rest := Pairs(nums[2..]);
      var r := [NumRange(nums[0], nums[1])] + rest;
      forall i | 1 <= i < |r| ensures r[i] == NumRange(nums[2 * i], nums[2 * i + 1]) {
        assert r[i] == rest[i - 1];
        assert nums[2..][2 * (i - 1)] == nums[2 * i];
        assert nums[2..][2 * (i - 1) + 1] == nums[2 * i + 1];
      }
      r
  }

  /** `parse_seeds_line_part2`. */
  function ParseSeedsLinePart2(ln: string): (r: Option<seq<NumRange>>)
    ensures r.Some? <==> ParseSeedsLine(ln).Some?
    ensures r.Some? ==> var nums := ParseSeedsLine(ln).value;
      |r.value| == |nums| / 2
      && forall i :: 0 <= i < |r.value| ==> r.value[i] == NumRange(nums[2 * i], nums[2 * i + 1])
  {
    match ParseSeedsLine(ln)
    case Some(nums) => Some(Pairs(nums))
    case None => None
  }
}
