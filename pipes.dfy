/** problem_10: the pipe maze. Directions, the pipe tiles and their
    connectors, the neighbours of a grid position, the start tile and the
    two pipes that connect to it. The traversal itself is unfinished in the
    source and not part of this model. */
module Pipes {
  import opened Wrappers
  import opened Text

  datatype Dirn = N | E | S | W {
    /** `opp`: the opposite direction. */
    function Opp(): (r: Dirn)
      ensures r != this
    {
      match this
      case N => S
      case S => N
      case E => W
      case W => E
    }
  }

  lemma OppInvolution(d: Dirn)
    ensures d.Opp().Opp() == d
  {
  }

  datatype TileType = PipeVert | PipeHoriz | PipeNE | PipeNW | PipeSW | PipeSE | Nothing | Start {
    predicate IsPipe() {
      !Nothing? && !Start?
    }

    /** `get_connector_pair`: the two ends of a pipe. */
    function ConnectorPair(): (r: Option<(Dirn, Dirn)>)
      ensures r.Some? <==> IsPipe()
      ensures r.Some? ==> r.value.0 != r.value.1
    {
      match this
      case PipeVert => Some((N, S))
      case PipeHoriz => Some((E, W))
      case PipeNW => Some((N, W))
      case PipeNE => Some((N, E))
      case PipeSW => Some((S, W))
      case PipeSE => Some((S, E))
      case Nothing => None
      case Start => None
    }

    /** `has_connector`: the start connects every way, ground none. */
    function HasConnector(d: Dirn): (r: bool)
      ensures Nothing? ==> !r
      ensures Start? ==> r
      ensures IsPipe() ==> (r <==> d == ConnectorPair().value.0 || d == ConnectorPair().value.1)
    {
      match this
      case Nothing => false
      case Start => true
      case _ =>
        var pair := ConnectorPair().value;
        d == pair.0 || d == pair.1
    }
  }

  /** The directions a tile connects to, in the order N, E, S, W. */
  function Connectors(t: TileType): seq<Dirn> {
    (if t.HasConnector(N) then [N] else [])
    + (if t.HasConnector(E) then [E] else [])
    + (if t.HasConnector(S) then [S] else [])
    + (if t.HasConnector(W) then [W] else [])
  }

  /** A pipe connects exactly two ways, the start all four, ground none. */
  lemma ConnectorCount(t: TileType)
    ensures t.IsPipe() ==> |Connectors(t)| == 2
    ensures t.Start? ==> |Connectors(t)| == 4
    ensures t.Nothing? ==> Connectors(t) == []
  {
  }

  /** `TileType::from_char`; `None` is the "Bad char value" panic. */
  function FromChar(c: char): (r: Option<TileType>)
    ensures r.Some? <==> c in "|-LJ7F.S"
    ensures r.Some? ==> ToChar(r.value) == c
  {
    match c
    case '|' => Some(PipeVert)
    case '-' => Some(PipeHoriz)
    case 'L' => Some(PipeNE)
    case 'J' => Some(PipeNW)
    case '7' => Some(PipeSW)
    case 'F' => Some(PipeSE)
    case '.' => Some(Nothing)
    case 'S' => Some(Start)
    case _ => None
  }

  /** The character of a tile in the puzzle input. */
  function ToChar(t: TileType): (c: char)
    ensures c in "|-LJ7F.S"
  {
    match t
    case PipeVert => '|'
    case PipeHoriz => '-'
    case PipeNE => 'L'
    case PipeNW => 'J'
    case PipeSW => '7'
    case PipeSE => 'F'
    case Nothing => '.'
    case Start => 'S'
  }

  /** Every tile is read back from its character. */
  lemma FromCharToChar(t: TileType)
    ensures FromChar(ToChar(t)) == Some(t)
  {
  }

  /** `parse_line`; `None` when a character is not a tile. */
  function ParseLine(ln: string): (r: Option<seq<TileType>>)
    ensures r.Some? <==> forall k :: 0 <= k < |ln| ==> FromChar(ln[k]).Some?
    ensures r.Some? ==> |r.value| == |ln| && forall k :: 0 <= k < |ln| ==> ToChar(r.value[k]) == ln[k]
    ensures r.Some? ==> forall k :: 0 <= k < |ln| ==> FromChar(ln[k]) == Some(r.value[k])
  {
    MapAll(ln, FromChar)
  }

  // ------------------------------------------------------------ positions

  /** The four moves in the order `get_adj` tries them: up, down, left,
      right, as compass directions with north up. */
  const MOVES: seq<Dirn> := [N, S, W, E]

  datatype Pos = Pos(lni: nat, xi: nat) {
    /** One step `d` from this position, if that stays at or above 0 and at
        or below the last position `lastIncl`. */
    function Step(d: Dirn, lastIncl: Pos): Option<Pos> {
      match d
      case N => if lni > 0 then Some(Pos(lni - 1, xi)) else None
      case S => if lni < lastIncl.lni then Some(Pos(lni + 1, xi)) else None
      case W => if xi > 0 then Some(Pos(lni, xi - 1)) else None
      case E => if xi < lastIncl.xi then Some(Pos(lni, xi + 1)) else None
    }

    /** `get_adj`: the neighbours inside the grid whose size is `lastExcl`,
        built by one conditional push per move. The size is at least 1 in
        each coordinate, as the unsigned subtraction demands. */
    method GetAdj(lastExcl: Pos) returns (out: seq<Pos>)
      requires lastExcl.lni >= 1 && lastExcl.xi >= 1
      ensures out == Adjacent(this, lastExcl)
    {
      var lastIncl := Pos(lastExcl.lni - 1, lastExcl.xi - 1);
      out := [];
      if lni > 0 {
        out := out + [Pos(lni - 1, xi)];
      }
      if lni < lastIncl.lni {
        out := out + [Pos(lni + 1, xi)];
      }
      if xi > 0 {
        out := out + [Pos(lni, xi - 1)];
      }
      if xi < lastIncl.xi {
        out := out + [Pos(lni, xi + 1)];
      }
    }

    /** `get_adj_and_dirn` as written: the same neighbours, labelled E, W,
        N, S for up, down, left, right. */
    method GetAdjAndDirn(lastExcl: Pos) returns (out: seq<(Dirn, Pos)>)
      requires lastExcl.lni >= 1 && lastExcl.xi >= 1
      ensures out == Labelled(this, lastExcl, WRITTEN_LABELS)
    {
      var lastIncl := Pos(lastExcl.lni - 1, lastExcl.xi - 1);
      out := [];
      if lni > 0 {
        out := out + [(E, Pos(lni - 1, xi))];
      }
      if lni < lastIncl.lni {
        out := out + [(W, Pos(lni + 1, xi))];
      }
      if xi > 0 {
        out := out + [(N, Pos(lni, xi - 1))];
      }
      if xi < lastIncl.xi {
        out := out + [(S, Pos(lni, xi + 1))];
      }
    }

    /** `get_adj_and_dirn` with each neighbour labelled by the direction it
        lies in. */
    method GetAdjAndDirnFixed(lastExcl: Pos) returns (out: seq<(Dirn, Pos)>)
      requires lastExcl.lni >= 1 && lastExcl.xi >= 1
      ensures out == Labelled(this, lastExcl, MOVES)
    {
      var lastIncl := Pos(lastExcl.lni - 1, lastExcl.xi - 1);
      out := [];
      if lni > 0 {
        out := out + [(N, Pos(lni - 1, xi))];
      }
      if lni < lastIncl.lni {
        out := out + [(S, Pos(lni + 1, xi))];
      }
      if xi > 0 {
        out := out + [(W, Pos(lni, xi - 1))];
      }
      if xi < lastIncl.xi {
        out := out + [(E, Pos(lni, xi + 1))];
      }
    }
  }

  /** The last position of a grid of size `lastExcl`. */
  function LastIncl(lastExcl: Pos): Pos
    requires lastExcl.lni >= 1 && lastExcl.xi >= 1
  {
    Pos(lastExcl.lni - 1, lastExcl.xi - 1)
  }

  function Found(q: Option<Pos>): seq<Pos> {
    if q.Some? then [q.value] else []
  }

  function FoundAs(d: Dirn, q: Option<Pos>): seq<(Dirn, Pos)> {
    if q.Some? then [(d, q.value)] else []
  }

  /** The neighbours reached by the moves up, down, left and right that stay
      in the grid, in that order. */
  function Adjacent(p: Pos, lastExcl: Pos): seq<Pos>
    requires lastExcl.lni >= 1 && lastExcl.xi >= 1
  {
    var li := LastIncl(lastExcl);
    Found(p.Step(MOVES[0], li)) + Found(p.Step(MOVES[1], li)) + Found(p.Step(MOVES[2], li)) + Found(p.Step(MOVES[3], li))
  }

  /** The same neighbours, each labelled with the label of its move. */
  function Labelled(p: Pos, lastExcl: Pos, labels: seq<Dirn>): seq<(Dirn, Pos)>
    requires lastExcl.lni >= 1 && lastExcl.xi >= 1 && |labels| == 4
  {
    var li := LastIncl(lastExcl);
    FoundAs(labels[0], p.Step(MOVES[0], li)) + FoundAs(labels[1], p.Step(MOVES[1], li))
    + FoundAs(labels[2], p.Step(MOVES[2], li)) + FoundAs(labels[3], p.Step(MOVES[3], li))
  }

  /** The labels `get_adj_and_dirn` gives to up, down, left and right. */
  const WRITTEN_LABELS: seq<Dirn> := [E, W, N, S]

  /** `q` lies in the grid of size `lastExcl`. */
  predicate InGrid(q: Pos, lastExcl: Pos) {
    q.lni < lastExcl.lni && q.xi < lastExcl.xi
  }

  /** `q` is one row or one column away from `p`. */
  predicate Orthogonal(p: Pos, q: Pos) {
    (q.xi == p.xi && (q.lni + 1 == p.lni || p.lni + 1 == q.lni))
    || (q.lni == p.lni && (q.xi + 1 == p.xi || p.xi + 1 == q.xi))
  }

  /** A step that succeeds reaches an orthogonal neighbour in the grid. */
  lemma StepSpec(p: Pos, d: Dirn, lastExcl: Pos)
    requires lastExcl.lni >= 1 && lastExcl.xi >= 1 && InGrid(p, lastExcl)
    ensures var q := p.Step(d, LastIncl(lastExcl));
      q.Some? ==> InGrid(q.value, lastExcl) && Orthogonal(p, q.value)
  {
  }

  /** `get_adj` returns at most four positions; from a position in the grid
      they are exactly the orthogonal neighbours inside the grid. */
  lemma AdjacentSpec(p: Pos, lastExcl: Pos)
    requires lastExcl.lni >= 1 && lastExcl.xi >= 1
    ensures |Adjacent(p, lastExcl)| <= 4
    ensures InGrid(p, lastExcl) ==> forall q :: q in Adjacent(p, lastExcl) <==> InGrid(q, lastExcl) && Orthogonal(p, q)
  {
    if InGrid(p, lastExcl) {
      var li := LastIncl(lastExcl);
      forall q ensures q in Adjacent(p, lastExcl) <==> InGrid(q, lastExcl) && Orthogonal(p, q) {
        if q in Adjacent(p, lastExcl) {
          StepSpec(p, N, lastExcl);
          StepSpec(p, S, lastExcl);
          StepSpec(p, W, lastExcl);
          StepSpec(p, E, lastExcl);
        }
      }
    }
  }

  /** Labelling does not change which positions are found. */
  lemma LabelledPositions(p: Pos, lastExcl: Pos, labels: seq<Dirn>)
    requires lastExcl.lni >= 1 && lastExcl.xi >= 1 && |labels| == 4
    ensures forall q :: q in Adjacent(p, lastExcl) <==> exists d :: (d, q) in Labelled(p, lastExcl, labels)
  {
    forall q ensures q in Adjacent(p, lastExcl) <==> exists d :: (d, q) in Labelled(p, lastExcl, labels) {
      var li := LastIncl(lastExcl);
      if q in Adjacent(p, lastExcl) {
        if p.Step(N, li) == Some(q) {
          assert (labels[0], q) in Labelled(p, lastExcl, labels);
        } else if p.Step(S, li) == Some(q) {
          assert (labels[1], q) in Labelled(p, lastExcl, labels);
        } else if p.Step(W, li) == Some(q) {
          assert (labels[2], q) in Labelled(p, lastExcl, labels);
        } else {
          assert (labels[3], q) in Labelled(p, lastExcl, labels);
        }
      }
    }
  }

  /** With the corrected labels, a labelled neighbour is exactly a step in
      the direction of its label. */
  lemma FixedLabelsStep(p: Pos, lastExcl: Pos)
    requires lastExcl.lni >= 1 && lastExcl.xi >= 1
    ensures forall d, q :: (d, q) in Labelled(p, lastExcl, MOVES) <==> p.Step(d, LastIncl(lastExcl)) == Some(q)
  {
    LabelledSteps(p, lastExcl);
    forall d, q | p.Step(d, LastIncl(lastExcl)) == Some(q) ensures (d, q) in Labelled(p, lastExcl, MOVES) {
      StepLabelled(p, lastExcl, d, q);
    }
  }

  lemma LabelledSteps(p: Pos, lastExcl: Pos)
    requires lastExcl.lni >= 1 && lastExcl.xi >= 1
    ensures forall e :: e in Labelled(p, lastExcl, MOVES) ==> p.Step(e.0, LastIncl(lastExcl)) == Some(e.1)
  {
  }

  lemma StepLabelled(p: Pos, lastExcl: Pos, d: Dirn, q: Pos)
    requires lastExcl.lni >= 1 && lastExcl.xi >= 1
    requires p.Step(d, LastIncl(lastExcl)) == Some(q)
    ensures (d, q) in Labelled(p, lastExcl, MOVES)
  {
  }

  /** As written, no label is the direction its neighbour lies in: up is
      labelled E, down W, left N and right S. */
  lemma WrittenLabelsWrong(p: Pos, lastExcl: Pos)
    requires lastExcl.lni >= 1 && lastExcl.xi >= 1
    ensures forall d, q :: (d, q) in Labelled(p, lastExcl, WRITTEN_LABELS) ==> p.Step(d, LastIncl(lastExcl)) != Some(q)
  {
  }

  // ----------------------------------------------------------------- grid

  /** `index_in`; `None` when the position is outside the rows. */
  function IndexIn(grid: seq<seq<TileType>>, q: Pos): (r: Option<TileType>)
    ensures r.Some? <==> q.lni < |grid| && q.xi < |grid[q.lni]|
    ensures r.Some? ==> r.value == grid[q.lni][q.xi]
  {
    if q.lni < |grid| && q.xi < |grid[q.lni]| then Some(grid[q.lni][q.xi]) else None
  }

  /** `(l, x)` comes before `p` in row-major order. */
  predicate Before(l: nat, x: nat, p: Pos) {
    l < p.lni || (l == p.lni && x < p.xi)
  }

  function FindInRow(row: seq<TileType>, x: nat): (r: Option<nat>)
    requires x <= |row|
    ensures r.Some? ==> x <= r.value < |row| && row[r.value] == Start
    ensures forall k :: x <= k < |row| && (r.None? || k < r.value) ==> row[k] != Start
    decreases |row| - x
  {
    if x == |row| then None else if row[x] == Start then Some(x) else FindInRow(row, x + 1)
  }

  function FindStartFrom(grid: seq<seq<TileType>>, l: nat): (r: Option<Pos>)
    requires l <= |grid|
    ensures r.Some? ==> l <= r.value.lni < |grid| && r.value.xi < |grid[r.value.lni]|
    ensures r.Some? ==> grid[r.value.lni][r.value.xi] == Start
    ensures forall l', x :: l <= l' < |grid| && 0 <= x < |grid[l']| && (r.None? || Before(l', x, r.value)) ==> grid[l'][x] != Start
    decreases |grid| - l
  {
    if l == |grid| then None
    else
      match FindInRow(grid[l], 0)
      case Some(x) => Some(Pos(l, x))
      case None => FindStartFrom(grid, l + 1)
  }

  /** `find_start`: the first Start in row-major order; `None` is the
      "Grid should contain a start" panic. */
  function FindStart(grid: seq<seq<TileType>>): (r: Option<Pos>)
    ensures r.None? <==> forall l, x :: 0 <= l < |grid| && 0 <= x < |grid[l]| ==> grid[l][x] != Start
    ensures r.Some? ==> IndexIn(grid, r.value) == Some(Start)
    ensures r.Some? ==> forall l, x :: 0 <= l < |grid| && 0 <= x < |grid[l]| && Before(l, x, r.value) ==> grid[l][x] != Start
  {
    FindStartFrom(grid, 0)
  }

  /** The labelled neighbours whose tile connects back towards `start`;
      `None` is an index outside the rows. */
  function ConnectingBack(grid: seq<seq<TileType>>, cands: seq<(Dirn, Pos)>): Option<seq<Pos>> {
    if cands == [] then Some([])
    else
      match IndexIn(grid, cands[0].1)
      case None => None
      case Some(t) =>
        match ConnectingBack(grid, cands[1..])
        case None => None
        case Some(rest) => Some(if t.HasConnector(cands[0].0.Opp()) then [cands[0].1] + rest else rest)
  }

  /** `collect_tuple` into a pair: `Some` exactly for two elements. */
  function CollectPair(ps: seq<Pos>): (r: Option<(Pos, Pos)>)
    ensures r.Some? <==> |ps| == 2
    ensures r.Some? ==> r.value == (ps[0], ps[1])
  {
    if |ps| == 2 then Some((ps[0], ps[1])) else None
  }

  /** `find_connecting_to_start` with the labels of `labels`; `None` is an
      index outside the rows or the "always two" panic. */
  function ConnectingWith(grid: seq<seq<TileType>>, start: Pos, gsize: Pos, labels: seq<Dirn>): (r: Option<(Pos, Pos)>)
    requires gsize.lni >= 1 && gsize.xi >= 1 && |labels| == 4
    ensures r.Some? ==> KeptFrom(grid, Labelled(start, gsize, labels), r.value.0)
    ensures r.Some? ==> KeptFrom(grid, Labelled(start, gsize, labels), r.value.1)
  {
    var cands := Labelled(start, gsize, labels);
    match ConnectingBack(grid, cands)
    case None => None
    case Some(ps) =>
      ConnectingBackKept(grid, cands);
      assert |ps| == 2 ==> ps[0] in ps && ps[1] in ps;
      CollectPair(ps)
  }

  /** `q` is listed in `cands` with a label whose opposite is a connector
      of the tile at `q`. */
  ghost predicate KeptFrom(grid: seq<seq<TileType>>, cands: seq<(Dirn, Pos)>, q: Pos) {
    exists d :: (d, q) in cands && IndexIn(grid, q).Some? && IndexIn(grid, q).value.HasConnector(d.Opp())
  }

  /** Every position the filter keeps passed its test, whatever the
      labels. */
  lemma {:induction false} ConnectingBackKept(grid: seq<seq<TileType>>, cands: seq<(Dirn, Pos)>)
    ensures var r := ConnectingBack(grid, cands);
      r.Some? ==> forall q :: q in r.value ==> KeptFrom(grid, cands, q)
  {
    if cands != [] && ConnectingBack(grid, cands).Some? {
      var e := cands[0];
      var rest := ConnectingBack(grid, cands[1..]).value;
      ConnectingBackKept(grid, cands[1..]);
      assert forall q :: KeptFrom(grid, cands[1..], q) ==> KeptFrom(grid, cands, q) by {
        assert forall x :: x in cands[1..] ==> x in cands;
      }
      forall q | q in ConnectingBack(grid, cands).value ensures KeptFrom(grid, cands, q) {
        if q !in rest {
          assert q == e.1 && e in cands;
          assert (e.0, q) in cands;
        }
      }
    }
  }

  /** `find_connecting_to_start` as written, over the labels of
      `get_adj_and_dirn`. */
  function FindConnectingToStartAsWritten(grid: seq<seq<TileType>>, start: Pos, gsize: Pos): (r: Option<(Pos, Pos)>)
    requires gsize.lni >= 1 && gsize.xi >= 1
    ensures r.Some? ==> r.value.0 in Adjacent(start, gsize) && r.value.1 in Adjacent(start, gsize)
    ensures r.Some? ==> KeptFrom(grid, Labelled(start, gsize, WRITTEN_LABELS), r.value.0)
    ensures r.Some? ==> KeptFrom(grid, Labelled(start, gsize, WRITTEN_LABELS), r.value.1)
  {
    LabelledPositions(start, gsize, WRITTEN_LABELS);
    ConnectingWith(grid, start, gsize, WRITTEN_LABELS)
  }

  /** `find_connecting_to_start` over the corrected labels. */
  function FindConnectingToStart(grid: seq<seq<TileType>>, start: Pos, gsize: Pos): (r: Option<(Pos, Pos)>)
    requires gsize.lni >= 1 && gsize.xi >= 1
    ensures r.Some? ==> BothConnect(grid, start, r.value, LastIncl(gsize))
    ensures r.Some? ==> OnlyThese(grid, start, r.value, LastIncl(gsize))
  {
    var cands := Labelled(start, gsize, MOVES);
    var r := ConnectingWith(grid, start, gsize, MOVES);
    if ConnectingBack(grid, cands).Some? then
      var ps := ConnectingBack(grid, cands).value;
      LabelledSteps(start, gsize);
      ConnectingBackSound(grid, start, LastIncl(gsize), cands);
      assert |ps| == 2 ==> ps[0] in ps && ps[1] in ps;
      if |ps| == 2 then OnlyConnecting(grid, start, gsize, ps); r else r
    else r
  }

  /** `q`, a neighbour of `p` in direction `d`, holds a tile with a
      connector pointing back at `p`. */
  predicate ConnectsBack(grid: seq<seq<TileType>>, p: Pos, d: Dirn, q: Pos, lastIncl: Pos) {
    p.Step(d, lastIncl) == Some(q) && IndexIn(grid, q).Some? && IndexIn(grid, q).value.HasConnector(d.Opp())
  }

  /** `q` is a neighbour of `p` whose tile connects back to it. */
  ghost predicate Connected(grid: seq<seq<TileType>>, p: Pos, q: Pos, lastIncl: Pos) {
    exists d :: ConnectsBack(grid, p, d, q, lastIncl)
  }

  /** Both positions of `pair` connect back to `p`. */
  ghost predicate BothConnect(grid: seq<seq<TileType>>, p: Pos, pair: (Pos, Pos), lastIncl: Pos) {
    Connected(grid, p, pair.0, lastIncl) && Connected(grid, p, pair.1, lastIncl)
  }

  /** Every position kept connects back, when each label is the direction
      of its position. */
  lemma {:induction false} ConnectingBackSound(grid: seq<seq<TileType>>, p: Pos, lastIncl: Pos, cands: seq<(Dirn, Pos)>)
    requires forall e :: e in cands ==> p.Step(e.0, lastIncl) == Some(e.1)
    ensures var r := ConnectingBack(grid, cands);
      r.Some? ==> forall q :: q in r.value ==> Connected(grid, p, q, lastIncl)
  {
    if cands != [] {
      assert forall e :: e in cands[1..] ==> e in cands;
      if ConnectingBack(grid, cands).Some? {
        var e := cands[0];
        assert IndexIn(grid, e.1).Some? && ConnectingBack(grid, cands[1..]).Some?;
        var t := IndexIn(grid, e.1).value;
        var rest := ConnectingBack(grid, cands[1..]).value;
        assert ConnectingBack(grid, cands).value == if t.HasConnector(e.0.Opp()) then [e.1] + rest else rest;
        assert e in cands;
        ConnectingBackSound(grid, p, lastIncl, cands[1..]);
        forall q | q in ConnectingBack(grid, cands).value ensures Connected(grid, p, q, lastIncl) {
          if q !in rest {
            assert q == e.1 && ConnectsBack(grid, p, e.0, q, lastIncl);
          }
        }
      }
    }
  }

  /** Every candidate whose tile connects back is kept; the result is `None`
      exactly when a candidate lies outside the rows. */
  lemma {:induction false} ConnectingBackComplete(grid: seq<seq<TileType>>, cands: seq<(Dirn, Pos)>)
    ensures ConnectingBack(grid, cands).None? <==> exists e :: e in cands && IndexIn(grid, e.1).None?
    ensures var r := ConnectingBack(grid, cands);
      r.Some? ==> forall e :: e in cands && IndexIn(grid, e.1).value.HasConnector(e.0.Opp()) ==> e.1 in r.value
  {
    if cands != [] {
      ConnectingBackComplete(grid, cands[1..]);
      assert forall e :: e in cands <==> e == cands[0] || e in cands[1..];
    }
  }

  lemma OnlyConnecting(grid: seq<seq<TileType>>, start: Pos, gsize: Pos, ps: seq<Pos>)
    requires gsize.lni >= 1 && gsize.xi >= 1
    requires ConnectingBack(grid, Labelled(start, gsize, MOVES)) == Some(ps) && |ps| == 2
    ensures OnlyThese(grid, start, (ps[0], ps[1]), LastIncl(gsize))
  {
    assert ps == [ps[0], ps[1]];
    forall d, q | ConnectsBack(grid, start, d, q, LastIncl(gsize)) ensures q == ps[0] || q == ps[1] {
      ConnectingKept(grid, start, gsize, ps, d, q);
    }
  }

  lemma ConnectingKept(grid: seq<seq<TileType>>, start: Pos, gsize: Pos, ps: seq<Pos>, d: Dirn, q: Pos)
    requires gsize.lni >= 1 && gsize.xi >= 1
    requires ConnectingBack(grid, Labelled(start, gsize, MOVES)) == Some(ps)
    requires ConnectsBack(grid, start, d, q, LastIncl(gsize))
    ensures q in ps
  {
    var cands := Labelled(start, gsize, MOVES);
    ConnectingBackComplete(grid, cands);
    StepLabelled(start, gsize, d, q);
    assert (d, q) in cands && IndexIn(grid, q).value.HasConnector(d.Opp());
  }


  /** No neighbour other than the two of `pair` connects back to `p`. */
  ghost predicate OnlyThese(grid: seq<seq<TileType>>, p: Pos, pair: (Pos, Pos), lastIncl: Pos) {
    forall d, q :: ConnectsBack(grid, p, d, q, lastIncl) ==> q == pair.0 || q == pair.1
  }

  // ------------------------------------------------------------- example

  /** A vertical pipe above and below the start, ground left and right:
      `.|.` / `.S.` / `.|.`. */
  const EXAMPLE: seq<seq<TileType>> := [[Nothing, PipeVert, Nothing], [Nothing, Start, Nothing], [Nothing, PipeVert, Nothing]]

  lemma ExampleStart()
    ensures FindStart(EXAMPLE) == Some(Pos(1, 1))
  {
    assert FindInRow(EXAMPLE[0], 0).None?;
    assert FindInRow(EXAMPLE[1], 0) == Some(1);
  }

  /** On the example the written labels find no connection, so the source
      panics. */
  lemma ExampleAsWritten()
    ensures FindConnectingToStartAsWritten(EXAMPLE, Pos(1, 1), Pos(3, 3)).None?
  {
    var written := Labelled(Pos(1, 1), Pos(3, 3), WRITTEN_LABELS);
    assert written == [(E, Pos(0, 1)), (W, Pos(2, 1)), (N, Pos(1, 0)), (S, Pos(1, 2))];
    assert ConnectingBack(EXAMPLE, written[3..]) == Some([]);
    assert ConnectingBack(EXAMPLE, written[2..]) == Some([]);
    assert ConnectingBack(EXAMPLE, written[1..]) == Some([]);
    assert ConnectingBack(EXAMPLE, written) == Some([]);
  }

  /** With the corrected labels the pipes above and below the start are
      found. */
  lemma ExampleFixed()
    ensures FindConnectingToStart(EXAMPLE, Pos(1, 1), Pos(3, 3)) == Some((Pos(0, 1), Pos(2, 1)))
  {
    var fixed := Labelled(Pos(1, 1), Pos(3, 3), MOVES);
    assert fixed == [(N, Pos(0, 1)), (S, Pos(2, 1)), (W, Pos(1, 0)), (E, Pos(1, 2))];
    assert ConnectingBack(EXAMPLE, fixed[3..]) == Some([]);
    assert ConnectingBack(EXAMPLE, fixed[2..]) == Some([]);
    assert fixed[1..][1..] == fixed[2..] && fixed[1..][0] == (S, Pos(2, 1));
    assert IndexIn(EXAMPLE, Pos(2, 1)) == Some(PipeVert) && PipeVert.HasConnector(S.Opp());
    assert ConnectingBack(EXAMPLE, fixed[1..]) == Some([Pos(2, 1)] + []);
    assert [Pos(2, 1)] + [] == [Pos(2, 1)];
    assert fixed[0] == (N, Pos(0, 1));
    assert IndexIn(EXAMPLE, Pos(0, 1)) == Some(PipeVert) && PipeVert.HasConnector(N.Opp());
    assert ConnectingBack(EXAMPLE, fixed) == Some([Pos(0, 1)] + [Pos(2, 1)]);
  }

  /** The example's input lines are already trimmed. */
  lemma ExampleLines()
    ensures TrimmedLines([".|.", ".S.", ".|."]) == [".|.", ".S.", ".|."]
  {
    var input := [".|.", ".S.", ".|."];
    TrimOfTrimmed(input[0]);
    TrimOfTrimmed(input[1]);
    assert input[1..][1..] == input[2..] && input[2..][1..] == [];
    assert TrimmedLines(input[2..]) == [".|."];
    assert TrimmedLines(input[1..]) == [".S.", ".|."];
  }

  lemma ExampleRow(ln: string, t: TileType)
    requires ln == ['.', ToChar(t), '.']
    ensures ParseLine(ln) == Some([Nothing, t, Nothing])
  {
    FromCharToChar(t);
    assert FromChar(ln[0]) == Some(Nothing) && FromChar(ln[1]) == Some(t) && FromChar(ln[2]) == Some(Nothing);
    assert forall k :: 0 <= k < |ln| ==> FromChar(ln[k]).Some? by {
      forall k | 0 <= k < |ln| ensures FromChar(ln[k]).Some? {
        assert k == 0 || k == 1 || k == 2;
      }
    }
    assert ParseLine(ln).Some?;
    var r := ParseLine(ln).value;
    assert |r| == 3 && r[0] == Nothing && r[1] == t && r[2] == Nothing;
    assert r == [Nothing, t, Nothing];
  }

  /** The input lines `.|.` / `.S.` / `.|.` parse to the example grid. */
  lemma ExampleGrid()
    ensures Grid([".|.", ".S.", ".|."]) == Some(EXAMPLE)
  {
    ExampleLines();
    ExampleRow(".|.", PipeVert);
    ExampleRow(".S.", Start);
    var g := MapAll([".|.", ".S.", ".|."], ParseLine);
    assert g.Some? && |g.value| == 3;
    assert g.value == EXAMPLE;
  }

  /** From the input lines of the example, part 1 as written panics. */
  lemma ExamplePart1()
    ensures Part1([".|.", ".S.", ".|."]).None?
  {
    ExampleGrid();
    ExampleStart();
    ExampleAsWritten();
    assert SearchGrid(EXAMPLE, WRITTEN_LABELS).None?;
  }

  /** From the same lines the corrected part 1 finds the pipes above and
      below the start. */
  lemma ExamplePart1Fixed()
    ensures Part1Fixed([".|.", ".S.", ".|."]) == Some((Pos(1, 1), (Pos(0, 1), Pos(2, 1))))
  {
    ExampleGrid();
    ExampleSearchFixed();
  }

  lemma ExampleSearchFixed()
    ensures SearchGrid(EXAMPLE, MOVES) == Some((Pos(1, 1), (Pos(0, 1), Pos(2, 1))))
  {
    ExampleStart();
    ExampleFixed();
    assert ConnectingWith(EXAMPLE, Pos(1, 1), Pos(3, 3), MOVES) == Some((Pos(0, 1), Pos(2, 1)));
  }

  // ---------------------------------------------------------------- part 1

  /** The grid of the trimmed non-empty lines; `None` is a bad character. */
  function Grid(input: seq<string>): Option<seq<seq<TileType>>> {
    MapAll(TrimmedLines(input), ParseLine)
  }

  /** The start of a non-empty grid and the two neighbours the search with
      `labels` finds for it; `None` is an empty grid (`grid[0]` panics), a
      grid without a start, or not exactly two connections. */
  function SearchGrid(grid: seq<seq<TileType>>, labels: seq<Dirn>): (r: Option<(Pos, (Pos, Pos))>)
    requires |labels| == 4
    ensures r.Some? ==> grid != [] && grid[0] != [] && FirstStart(grid, r.value.0)
    ensures (forall l, x :: 0 <= l < |grid| && 0 <= x < |grid[l]| ==> grid[l][x] != Start) ==> r.None?
    ensures r.Some? ==> KeptFrom(grid, Labelled(r.value.0, Pos(|grid|, |grid[0]|), labels), r.value.1.0)
    ensures r.Some? ==> KeptFrom(grid, Labelled(r.value.0, Pos(|grid|, |grid[0]|), labels), r.value.1.1)
  {
    if grid == [] || grid[0] == [] then None
    else
      var gsize := Pos(|grid|, |grid[0]|);
      match FindStart(grid)
      case None => None
      case Some(start) =>
        match ConnectingWith(grid, start, gsize, labels)
        case None => None
        case Some(adj) => Some((start, adj))
  }

  /** What part 1 computes before the unfinished traversal, as written: the
      start and the two neighbours the written labels accept. `None` is a
      panic: a bad character, an empty grid, no start, or not exactly two
      connections. */
  function Part1(input: seq<string>): (r: Option<(Pos, (Pos, Pos))>)
    ensures Grid(input).None? ==> r.None?
    ensures r.Some? ==> var grid := Grid(input).value;
      grid != [] && grid[0] != [] && FirstStart(grid, r.value.0)
      && KeptFrom(grid, Labelled(r.value.0, Pos(|grid|, |grid[0]|), WRITTEN_LABELS), r.value.1.0)
      && KeptFrom(grid, Labelled(r.value.0, Pos(|grid|, |grid[0]|), WRITTEN_LABELS), r.value.1.1)
  {
    match Grid(input)
    case None => None
    case Some(grid) => SearchGrid(grid, WRITTEN_LABELS)
  }

  /** Part 1 with the corrected labels. */
  function Part1Fixed(input: seq<string>): (r: Option<(Pos, (Pos, Pos))>)
    ensures Grid(input).None? ==> r.None?
    ensures r.Some? ==> var grid := Grid(input).value;
      grid != [] && grid[0] != [] && FirstStart(grid, r.value.0)
  {
    match Grid(input)
    case None => None
    case Some(grid) => SearchGrid(grid, MOVES)
  }

  /** The corrected part 1 fails on a bad character or a grid without a
      start; a result is the first start tile with exactly the two
      neighbours that connect back to it. */
  lemma Part1Spec(input: seq<string>)
    ensures Grid(input).None? ==> Part1Fixed(input).None?
    ensures var g := Grid(input);
      g.Some? && (forall l, x :: 0 <= l < |g.value| && 0 <= x < |g.value[l]| ==> g.value[l][x] != Start) ==> Part1Fixed(input).None?
    ensures var r := Part1Fixed(input);
      r.Some? ==> PartOneResult(Grid(input).value, r.value.0, r.value.1)
  {
    var r := Part1Fixed(input);
    if r.Some? {
      var grid := Grid(input).value;
      var fixed := FindConnectingToStart(grid, r.value.0, Pos(|grid|, |grid[0]|));
      assert fixed == Some(r.value.1);
    }
  }

  /** The first start tile of `grid` in reading order. */
  ghost predicate FirstStart(grid: seq<seq<TileType>>, start: Pos) {
    IndexIn(grid, start) == Some(Start)
    && forall l, x :: 0 <= l < |grid| && 0 <= x < |grid[l]| && Before(l, x, start) ==> grid[l][x] != Start
  }

  /** `start` is the first start tile of a non-empty grid and `adj` the two
      tiles connected to it. */
  ghost predicate PartOneResult(grid: seq<seq<TileType>>, start: Pos, adj: (Pos, Pos)) {
    grid != [] && grid[0] != []
    && FirstStart(grid, start)
    && BothConnect(grid, start, adj, LastIncl(Pos(|grid|, |grid[0]|)))
    && OnlyThese(grid, start, adj, LastIncl(Pos(|grid|, |grid[0]|)))
  }
}
