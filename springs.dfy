/** problem_12: counting the arrangements of damaged springs. A row of
    springs is a pattern of `Normal` (`.`), `Broken` (`#`) and `Unknown`
    (`?`) states, together with the lengths of the runs of broken springs
    in order. The count is a recursion on the first run length; the global
    cache of the source becomes a memo map, keyed by value, held by a
    `CombCache` object. */
module Springs {
  import opened Wrappers
  import opened Text

  datatype State = Normal | Broken | Unknown

  /** `State::from_char`; `None` is the panic on any other character. */
  function FromChar(c: char): (r: Option<State>)
    ensures r.Some? <==> c == '.' || c == '#' || c == '?'
    ensures r.Some? ==> ToChar(r.value) == c
  {
    match c
    case '.' => Some(Normal)
    case '#' => Some(Broken)
    case '?' => Some(Unknown)
    case _ => None
  }

  /** The character a state is written as. */
  function ToChar(s: State): char {
    match s
    case Normal => '.'
    case Broken => '#'
    case Unknown => '?'
  }

  lemma FromToChar(s: State)
    ensures FromChar(ToChar(s)) == Some(s)
  {
  }

  /** The row of springs and its run lengths (`Line`). */
  datatype Row = Row(states: seq<State>, nums: seq<nat>)

  /** `parse_states`: every character through `from_char`. */
  function ParseStates(s: string): (r: Option<seq<State>>)
    ensures r.Some? <==> forall i :: 0 <= i < |s| ==> FromChar(s[i]).Some?
    ensures r.Some? ==> |r.value| == |s| && forall i :: 0 <= i < |s| ==> ToChar(r.value[i]) == s[i]
  {
    MapAll(s, FromChar)
  }

  /** `parse_num_list` of this puzzle: trimmed, split at `,`, each piece a
      `usize`; an empty piece does not parse. */
  function ParseNums(s: string): (r: Option<seq<nat>>)
    ensures r.Some? <==> forall i :: 0 <= i < |NumPieces(s)| ==> ParseUnsigned(NumPieces(s)[i], U64_LIMIT).Some?
    ensures r.Some? ==> |r.value| == |NumPieces(s)| >= 1
    ensures r.Some? ==> forall i :: 0 <= i < |r.value| ==> ParseUnsigned(NumPieces(s)[i], U64_LIMIT) == Some(r.value[i])
  {
    ParseAll(NumPieces(s), U64_LIMIT)
  }

  /** The pieces between commas of the trimmed text. */
  function NumPieces(s: string): (r: seq<string>)
    ensures |r| >= 1
  {
    Split(Trim(s), ',')
  }

  /** `parse_line`: `<springs> <nums>`, split at the first space. */
  function ParseLine(line: string): (r: Option<Row>)
    ensures r.Some? <==> (' ' in line &&
      var (a, b) := SplitOnce(line, ' ').value;
      ParseStates(a).Some? && ParseNums(b).Some?)
    ensures r.Some? ==> var (a, b) := SplitOnce(line, ' ').value;
      ParseStates(a) == Some(r.value.states) && ParseNums(b) == Some(r.value.nums)
  {
    match SplitOnce(line, ' ')
    case None => None
    case Some((a, b)) =>
      match (ParseStates(a), ParseNums(b))
      case (Some(states), Some(nums)) => Some(Row(states, nums))
      case _ => None
  }

  // ------------------------------------------------------------ matching

  /** One position of `matches_states`: `Unknown` matches anything. */
  predicate Compatible(x: State, y: State) {
    x == Unknown || y == Unknown || x == y
  }

  /** `matches_states`: `zip_eq` then `all`. `all` stops at the first
      mismatch, so unequal lengths panic (`None`) only when every position
      of the shorter slice matches. */
  function MatchesStates(expected: seq<State>, actual: seq<State>): (r: Option<bool>)
    ensures r.None? <==> (|expected| != |actual|
      && forall i :: 0 <= i < |expected| && i < |actual| ==> Compatible(expected[i], actual[i]))
    ensures r == Some(true) <==> (|expected| == |actual|
      && forall i :: 0 <= i < |expected| ==> Compatible(expected[i], actual[i]))
  {
    if expected == [] && actual == [] then Some(true)
    else if expected == [] || actual == [] then None
    else if !Compatible(expected[0], actual[0]) then Some(false)
    else
      assert forall i :: 1 <= i < |expected| ==> expected[1..][i - 1] == expected[i];
      assert forall i :: 1 <= i < |actual| ==> actual[1..][i - 1] == actual[i];
      MatchesStates(expected[1..], actual[1..])
  }

  lemma MatchesStatesSymmetric(a: seq<State>, b: seq<State>)
    ensures MatchesStates(a, b) == MatchesStates(b, a)
  {
    var r, q := MatchesStates(a, b), MatchesStates(b, a);
    if r == Some(true) {
      assert q == Some(true);
    } else if r.None? {
      assert q.None?;
    } else {
      assert q != Some(true) && q.Some?;
    }
  }

  /** `n` copies of `s` (`[s].repeat(n)`). */
  function Repeat(s: State, n: nat): (r: seq<State>)
    ensures |r| == n && forall i :: 0 <= i < n ==> r[i] == s
  {
    if n == 0 then [] else [s] + Repeat(s, n - 1)
  }

  /** The window `states[start..start + len + 1]` takes a run of `len`
      broken springs followed by a normal one. */
  lemma WindowMatch(states: seq<State>, len: nat, start: nat)
    requires start + len < |states|
    ensures MatchesStates(states[start..start + len + 1], Repeat(Broken, len) + [Normal]) == Some(true)
      <==> (forall i :: start <= i < start + len ==> states[i] != Normal) && states[start + len] != Broken
  {
    var w, t := states[start..start + len + 1], Repeat(Broken, len) + [Normal];
    assert forall i :: 0 <= i < len ==> w[i] == states[start + i] && t[i] == Broken;
    assert w[len] == states[start + len] && t[len] == Normal;
    if (forall i :: start <= i < start + len ==> states[i] != Normal) && states[start + len] != Broken {
      assert forall i :: 0 <= i < |w| ==> Compatible(w[i], t[i]);
    }
  }

  // ------------------------------------------------------------ counting

  predicate NoneBroken(states: seq<State>) {
    forall i :: 0 <= i < |states| ==> states[i] != Broken
  }

  predicate NoneNormal(states: seq<State>) {
    forall i :: 0 <= i < |states| ==> states[i] != Normal
  }

  /** `get_combs_nolengths`: with no run left, one arrangement exactly when
      no spring is broken. */
  function GetCombsNoLengths(states: seq<State>): (r: nat)
    ensures r <= 1 && (r == 1 <==> NoneBroken(states))
  {
    if NoneBroken(states) then 1 else 0
  }

  /** Index of the first broken spring (`find_position`). */
  function FirstBroken(states: seq<State>): (r: Option<nat>)
    ensures r.None? <==> NoneBroken(states)
    ensures r.Some? ==> r.value < |states| && states[r.value] == Broken
    ensures r.Some? ==> forall i :: 0 <= i < r.value ==> states[i] != Broken
  {
    if states == [] then None
    else if states[0] == Broken then Some(0)
    else match FirstBroken(states[1..])
      case None => None
      case Some(i) => Some(i + 1)
  }

  /** The last start tried: `(len(states) - len).min(first_broken)`, where a
      row without a broken spring gives `usize::MAX`, which `min` never picks.
      A run starting after the first broken spring would leave it uncovered. */
  function LastStart(states: seq<State>, len: nat): (last: nat)
    requires len < |states|
    ensures last <= |states| - len
    ensures FirstBroken(states).Some? ==> last <= FirstBroken(states).value
    ensures last == |states| - len || (FirstBroken(states).Some? && last == FirstBroken(states).value)
  {
    match FirstBroken(states)
    case None => |states| - len
    case Some(i) => if |states| - len <= i then |states| - len else i
  }

  /** Room the runs need at least: their lengths and one gap between each
      two of them. */
  function MinRoom(lengths: seq<nat>): nat {
    if lengths == [] then 0
    else if |lengths| == 1 then lengths[0]
    else lengths[0] + 1 + MinRoom(lengths[1..])
  }

  /** `get_combs`: arrangements of `states` with the runs `lengths`; a row
      too short for its runs has none. */
  function GetCombs(states: seq<State>, lengths: seq<nat>): (r: nat)
    ensures MinRoom(lengths) > |states| ==> r == 0
    decreases |lengths|, 2, 0
  {
    if lengths == [] then GetCombsNoLengths(states)
    else
      var len := lengths[0];
      if len > |states| then 0
      else if len == |states| then
        if |lengths| > 1 then 0 else if NoneNormal(states) then 1 else 0
      else SumPlacements(states, lengths, 0, LastStart(states, len))
  }

  /** The `filter_map(...).sum()` over the starts `start..=last`. */
  function SumPlacements(states: seq<State>, lengths: seq<nat>, start: nat, last: nat): (r: nat)
    requires lengths != [] && lengths[0] < |states| && last <= |states| - lengths[0]
    ensures MinRoom(lengths) > |states| ==> r == 0
    decreases |lengths|, 1, last + 1 - start
  {
    if start > last then 0
    else Placement(states, lengths, start) + SumPlacements(states, lengths, start + 1, last)
  }

  /** The arrangements with the first run at `start`. At the very end of the
      row the run needs no trailing normal spring and must be the last run;
      elsewhere it needs one, and the rest of the row after it takes the
      remaining runs. A start that does not fit contributes nothing. */
  function Placement(states: seq<State>, lengths: seq<nat>, start: nat): (r: nat)
    requires lengths != [] && start + lengths[0] <= |states|
    ensures MinRoom(lengths) > |states| ==> r == 0
    decreases |lengths|, 0, 0
  {
    var len := lengths[0];
    if start + len == |states| then
      if MatchesStates(states[start..start + len], Repeat(Broken, len)) != Some(true) then 0
      else if |lengths| == 1 then 1 else 0
    else if MatchesStates(states[start..start + len + 1], Repeat(Broken, len) + [Normal]) != Some(true) then 0
    else GetCombs(states[start + len + 1..], lengths[1..])
  }

  // ----------------------------------------------- properties of the count

  lemma NoLengths(states: seq<State>)
    ensures GetCombs(states, []) == if NoneBroken(states) then 1 else 0
  {
  }

  lemma FirstRunTooLong(states: seq<State>, lengths: seq<nat>)
    requires lengths != [] && lengths[0] > |states|
    ensures GetCombs(states, lengths) == 0
  {
  }

  lemma FirstRunFillsRow(states: seq<State>, lengths: seq<nat>)
    requires lengths != [] && lengths[0] == |states|
    ensures GetCombs(states, lengths) == if |lengths| > 1 || !NoneNormal(states) then 0 else 1
  {
  }

  /** An interior placement counts the arrangements of the rest of the row
      exactly when the window takes `len` broken springs and one normal. */
  lemma InteriorPlacement(states: seq<State>, lengths: seq<nat>, start: nat)
    requires lengths != [] && start + lengths[0] < |states|
    ensures var len := lengths[0];
      Placement(states, lengths, start)
      == if (forall i :: start <= i < start + len ==> states[i] != Normal) && states[start + len] != Broken
         then GetCombs(states[start + len + 1..], lengths[1..]) else 0
  {
    WindowMatch(states, lengths[0], start);
  }

  /** One run of one broken spring in a row of three unknowns can sit at
      any of the three positions. */
  lemma ThreeUnknownsOneRun()
    ensures GetCombs([Unknown, Unknown, Unknown], [1]) == 3
  {
    var s := [Unknown, Unknown, Unknown];
    assert Placement(s, [1], 0) == 1 by {
      assert MatchesStates(s[0..2], Repeat(Broken, 1) + [Normal]) == Some(true);
      assert GetCombs(s[2..], []) == 1;
    }
    assert Placement(s, [1], 1) == 1 by {
      assert MatchesStates(s[1..3], Repeat(Broken, 1) + [Normal]) == Some(true);
      assert GetCombs(s[3..], []) == 1;
    }
    assert Placement(s, [1], 2) == 1 by {
      assert MatchesStates(s[2..3], Repeat(Broken, 1)) == Some(true);
    }
  }

  // ------------------------------------------------------------- the cache

  /** `CMB_CACHE`, keyed by the slices' contents rather than their
      addresses: every entry holds the count of its key. */
  class CombCache {
    var memo: map<(seq<State>, seq<nat>), nat>

    ghost predicate Valid()
      reads this
    {
      forall k :: k in memo ==> memo[k] == GetCombs(k.0, k.1)
    }

    constructor ()
      ensures Valid() && memo == map[]
    {
      memo := map[];
    }

    /** The `clear()` at the start of part 2. */
    method Clear()
      modifies this
      ensures Valid() && memo == map[]
    {
      memo := map[];
    }

    /** `get_combs_cached`: the cached count, or the count computed and
        then inserted. */
    method GetCombsCached(states: seq<State>, lengths: seq<nat>) returns (r: nat)
      requires Valid()
      modifies this
      ensures Valid() && r == GetCombs(states, lengths)
      ensures (states, lengths) in memo && old(memo).Keys <= memo.Keys
      decreases |lengths|, 3
    {
      if (states, lengths) in memo {
        return memo[(states, lengths)];
      }
      r := Compute(states, lengths);
      memo := memo[(states, lengths) := r];
    }

    /** `get_combs` with its recursive calls going through the cache. */
    method Compute(states: seq<State>, lengths: seq<nat>) returns (r: nat)
      requires Valid()
      modifies this
      ensures Valid() && r == GetCombs(states, lengths)
      ensures old(memo).Keys <= memo.Keys
      decreases |lengths|, 2
    {
      if lengths == [] {
        return GetCombsNoLengths(states);
      }
      var len := lengths[0];
      if len > |states| {
        return 0;
      }
      if len == |states| {
        if |lengths| > 1 {
          return 0;
        }
        return if NoneNormal(states) then 1 else 0;
      }
      r := SumCached(states, lengths, LastStart(states, len));
    }

    /** The sum over the starts `0..=last`, one placement at a time. */
    method SumCached(states: seq<State>, lengths: seq<nat>, last: nat) returns (r: nat)
      requires Valid()
      requires lengths != [] && lengths[0] < |states| && last <= |states| - lengths[0]
      modifies this
      ensures Valid() && r == SumPlacements(states, lengths, 0, last)
      ensures old(memo).Keys <= memo.Keys
      decreases |lengths|, 1
    {
      var len := lengths[0];
      var start := 0;
      r := 0;
      while start <= last
        invariant Valid() && start <= last + 1
        invariant old(memo).Keys <= memo.Keys
        invariant r + SumPlacements(states, lengths, start, last) == SumPlacements(states, lengths, 0, last)
        decreases last + 1 - start
      {
        var here := PlacementCached(states, lengths, start);
        r := r + here;
        start := start + 1;
      }
    }

    /** One start of the `filter_map`, recursing through the cache. */
    method PlacementCached(states: seq<State>, lengths: seq<nat>, start: nat) returns (here: nat)
      requires Valid()
      requires lengths != [] && start + lengths[0] <= |states|
      modifies this
      ensures Valid() && here == Placement(states, lengths, start)
      ensures old(memo).Keys <= memo.Keys
      decreases |lengths|, 0
    {
      var len := lengths[0];
      here := 0;
      if start + len == |states| {
        if MatchesStates(states[start..start + len], Repeat(Broken, len)) == Some(true) && |lengths| == 1 {
          here := 1;
        }
      } else if MatchesStates(states[start..start + len + 1], Repeat(Broken, len) + [Normal]) == Some(true) {
        here := GetCombsCached(states[start + len + 1..], lengths[1..]);
      }
    }
  }

  /** `handle_line` through the cache. */
  method HandleLine(cache: CombCache, row: Row) returns (r: nat)
    requires cache.Valid()
    modifies cache
    ensures cache.Valid() && r == GetCombs(row.states, row.nums)
  {
    r := cache.GetCombsCached(row.states, row.nums);
  }

  // ------------------------------------------------------------ unfolding

  /** `nums.repeat(5)`: copy `k` sits at `k * |nums|`. */
  function Repeat5(nums: seq<nat>): (r: seq<nat>)
    ensures |r| == 5 * |nums|
    ensures forall k, i :: 0 <= k < 5 && 0 <= i < |nums| ==> r[RepeatIndex(k, i, |nums|)] == nums[i]
  {
    var n := |nums|;
    var r := nums + nums + nums + nums + nums;
    forall k, i | 0 <= k < 5 && 0 <= i < n ensures r[RepeatIndex(k, i, n)] == nums[i] {
      if k == 0 { assert r[i] == nums[i]; }
      else if k == 1 { assert r[n + i] == nums[i]; }
      else if k == 2 { assert r[2 * n + i] == nums[i]; }
      else if k == 3 { assert r[3 * n + i] == nums[i]; }
      else { assert r[4 * n + i] == nums[i]; }
    }
    r
  }

  /** Index of position `i` of copy `k` when copies of length `n` are
      concatenated. */
  function RepeatIndex(k: nat, i: nat, n: nat): nat {
    k * n + i
  }

  /** Index of position `j` of copy `k` when copies of length `m` are joined
      by one separator each. */
  function CopyIndex(k: nat, j: nat, m: nat): nat {
    k * (m + 1) + j
  }

  /** Five copies of `states` joined by single `Unknown`s (`intersperse`
      then `flatten`). */
  function Unfold5(states: seq<State>): (r: seq<State>)
    ensures |r| == 5 * |states| + 4
    ensures forall k, j :: 0 <= k < 5 && 0 <= j < |states| ==> r[CopyIndex(k, j, |states|)] == states[j]
    ensures forall k :: 0 <= k < 4 ==> r[CopyIndex(k, |states|, |states|)] == Unknown
  {
    var m := |states|;
    var u := states + [Unknown];
    var r := u + u + u + u + states;
    forall k, j | 0 <= k < 5 && 0 <= j <= m && (k < 4 || j < m)
      ensures r[CopyIndex(k, j, m)] == if j < m then states[j] else Unknown
    {
      if k == 0 { assert r[j] == u[j]; }
      else if k == 1 { assert r[(m + 1) + j] == u[j]; }
      else if k == 2 { assert r[2 * (m + 1) + j] == u[j]; }
      else if k == 3 { assert r[3 * (m + 1) + j] == u[j]; }
      else { assert r[4 * (m + 1) + j] == states[j]; }
    }
    r
  }

  /** The unfolded row of part 2. */
  function UnfoldRow(row: Row): (r: Row)
    ensures |r.nums| == 5 * |row.nums| && |r.states| == 5 * |row.states| + 4
  {
    Row(Unfold5(row.states), Repeat5(row.nums))
  }

  /** The total count over some rows. */
  function TotalCombs(rows: seq<Row>): nat {
    if rows == [] then 0 else TotalCombs(rows[..|rows| - 1]) + GetCombs(rows[|rows| - 1].states, rows[|rows| - 1].nums)
  }

  /** The `map(handle_line).sum()` of both parts, through one cache. */
  method SumRows(cache: CombCache, rows: seq<Row>) returns (total: nat)
    requires cache.Valid()
    modifies cache
    ensures cache.Valid() && total == TotalCombs(rows)
  {
    total := 0;
    var i := 0;
    while i < |rows|
      invariant i <= |rows| && cache.Valid()
      invariant total == TotalCombs(rows[..i])
    {
      var here := HandleLine(cache, rows[i]);
      assert rows[..i + 1][..i] == rows[..i];
      total := total + here;
      i := i + 1;
    }
    assert rows[..|rows|] == rows;
  }

  /** Every row unfolded. */
  function UnfoldRows(rows: seq<Row>): (r: seq<Row>)
    ensures |r| == |rows| && forall i :: 0 <= i < |rows| ==> r[i] == UnfoldRow(rows[i])
  {
    if rows == [] then [] else [UnfoldRow(rows[0])] + UnfoldRows(rows[1..])
  }

  /** Part 2: the cache is cleared, then the unfolded rows are counted. */
  method Part2(cache: CombCache, rows: seq<Row>) returns (total: nat)
    modifies cache
    ensures cache.Valid() && total == TotalCombs(UnfoldRows(rows))
  {
    cache.Clear();
    total := SumRows(cache, UnfoldRows(rows));
  }
}
