/** problem_2: cube games. A game is a list of rounds, each showing some red,
    green and blue cubes. Part 1 sums the ids of the games possible with a bag
    of 12 red, 13 green and 14 blue cubes; part 2 sums the powers of the
    smallest bag each game needs. */
module Cubes {
  import opened Wrappers
  import opened Text

  datatype Colour = Red | Green | Blue

  /** `CubeCount`: a number of cubes of each colour. */
  datatype CubeCount = CubeCount(red: nat, green: nat, blue: nat)
  {
    /** The count of one colour. */
    function Get(c: Colour): nat {
      match c
      case Red => red
      case Green => green
      case Blue => blue
    }

    /** `add`: componentwise sum. */
    function Add(other: CubeCount): (r: CubeCount)
      ensures forall c :: r.Get(c) == Get(c) + other.Get(c)
    {
      CubeCount(red + other.red, green + other.green, blue + other.blue)
    }

    /** `le`: componentwise at most. */
    predicate Le(other: CubeCount) {
      red <= other.red && green <= other.green && blue <= other.blue
    }

    /** `max_cubes`: componentwise maximum. */
    function Max(other: CubeCount): (r: CubeCount)
      ensures forall c :: r.Get(c) == Get(c) || r.Get(c) == other.Get(c)
      ensures Le(r) && other.Le(r)
    {
      CubeCount(MaxNat(red, other.red), MaxNat(green, other.green), MaxNat(blue, other.blue))
    }

    /** `power`: the product of the three counts, zero exactly when one of
        them is zero. */
    function Power(): (r: nat)
      ensures r == 0 <==> red == 0 || green == 0 || blue == 0
    {
      red * green * blue
    }
  }

  function MaxNat(a: nat, b: nat): nat {
    if a < b then b else a
  }

  /** `Default`: no cubes. */
  const ZERO := CubeCount(0, 0, 0)

  /** `just_red`, `just_green` and `just_blue`: `amount` of one colour and
      none of the others. */
  function Just(c: Colour, amount: nat): (r: CubeCount)
    ensures r.Get(c) == amount
    ensures forall d :: d != c ==> r.Get(d) == 0
  {
    match c
    case Red => CubeCount(amount, 0, 0)
    case Green => CubeCount(0, amount, 0)
    case Blue => CubeCount(0, 0, amount)
  }

  /** The counts are equal when every colour's count is. */
  lemma Extensional(a: CubeCount, b: CubeCount)
    requires forall c :: a.Get(c) == b.Get(c)
    ensures a == b
  {
    assert a.Get(Red) == b.Get(Red) && a.Get(Green) == b.Get(Green) && a.Get(Blue) == b.Get(Blue);
  }

  // ------------------------------------------------------------------ laws

  lemma AddCommutative(a: CubeCount, b: CubeCount)
    ensures a.Add(b) == b.Add(a)
  {
    Extensional(a.Add(b), b.Add(a));
  }

  lemma AddAssociative(a: CubeCount, b: CubeCount, c: CubeCount)
    ensures a.Add(b).Add(c) == a.Add(b.Add(c))
  {
    Extensional(a.Add(b).Add(c), a.Add(b.Add(c)));
  }

  lemma AddIdentity(a: CubeCount)
    ensures a.Add(ZERO) == a && ZERO.Add(a) == a
  {
    assert forall c :: ZERO.Get(c) == 0;
    Extensional(a.Add(ZERO), a);
    Extensional(ZERO.Add(a), a);
  }

  lemma MaxCommutative(a: CubeCount, b: CubeCount)
    ensures a.Max(b) == b.Max(a)
  {
  }

  lemma MaxAssociative(a: CubeCount, b: CubeCount, c: CubeCount)
    ensures a.Max(b).Max(c) == a.Max(b.Max(c))
  {
  }

  lemma MaxIdempotent(a: CubeCount)
    ensures a.Max(a) == a
  {
  }

  /** The maximum is the least count that bounds both. */
  lemma MaxLeast(a: CubeCount, b: CubeCount, c: CubeCount)
    ensures a.Max(b).Le(c) <==> a.Le(c) && b.Le(c)
  {
  }

  /** `le` is a partial order. */
  lemma LePartialOrder(a: CubeCount, b: CubeCount, c: CubeCount)
    ensures a.Le(a)
    ensures a.Le(b) && b.Le(a) ==> a == b
    ensures a.Le(b) && b.Le(c) ==> a.Le(c)
  {
  }

  /** A larger bag has at least the power. */
  lemma PowerMonotone(a: CubeCount, b: CubeCount)
    requires a.Le(b)
    ensures a.Power() <= b.Power()
  {
    MulMonotone(a.red, a.green, b.red, b.green);
    MulMonotone(a.red * a.green, a.blue, b.red * b.green, b.blue);
  }

  lemma MulMonotone(a: nat, b: nat, c: nat, d: nat)
    requires a <= c && b <= d
    ensures a * b <= c * d
  {
    assert a * b <= c * b;
    assert c * b <= c * d;
  }

  // ---------------------------------------------------------------- rounds

  datatype Item = Item(amount: nat, colour: Colour)

  function ColourName(c: Colour): string {
    match c
    case Red => "red"
    case Green => "green"
    case Blue => "blue"
  }

  function ParseColour(s: string): (r: Option<Colour>)
    ensures r.Some? <==> s == "red" || s == "green" || s == "blue"
    ensures r.Some? ==> ColourName(r.value) == s
  {
    if s == "red" then Some(Red)
    else if s == "green" then Some(Green)
    else if s == "blue" then Some(Blue)
    else None
  }

  /** One trimmed "N colour" item: exactly two pieces at single spaces, a
      `u32` amount and a known colour; anything else panics (`None`). */
  function ParseItem(s: string): (r: Option<Item>)
    ensures r.Some? <==> (|Split(s, ' ')| == 2
                          && ParseUnsigned(Split(s, ' ')[0], U32_LIMIT).Some?
                          && ParseColour(Split(s, ' ')[1]).Some?)
    ensures r.Some? ==> r.value.amount < U32_LIMIT
                        && ColourName(r.value.colour) == Split(s, ' ')[1]
  {
    var v := Split(s, ' ');
    if |v| != 2 then None
    else
      match (ParseUnsigned(v[0], U32_LIMIT), ParseColour(v[1]))
      case (Some(n), Some(c)) => Some(Item(n, c))
      case _ => None
  }

  /** An item written as its amount, one space and its colour parses back. */
  lemma ParseItemRender(it: Item)
    requires it.amount < U32_LIMIT
    ensures ParseItem(NatToString(it.amount) + " " + ColourName(it.colour)) == Some(it)
  {
    var a, b := NatToString(it.amount), ColourName(it.colour);
    assert ' ' !in a by {
      assert AllDigits(a);
    }
    SplitTwo(a, b, ' ');
    ParseNatToString(it.amount, U32_LIMIT);
  }

  lemma SplitTwo(a: string, b: string, c: char)
    requires c !in a && c !in b
    ensures Split(a + [c] + b, c) == [a, b]
  {
    var pieces := [a, b];
    assert pieces[1..] == [b];
    SplitJoin(pieces, c);
  }

  /** The sum of the items' counts: `reduce(CubeCount::add)`. */
  function Total(items: seq<Item>): CubeCount {
    if items == [] then ZERO else Just(items[0].colour, items[0].amount).Add(Total(items[1..]))
  }

  /** The sum of the amounts of colour `c`. */
  function ColourSum(items: seq<Item>, c: Colour): nat {
    if items == [] then 0
    else (if items[0].colour == c then items[0].amount else 0) + ColourSum(items[1..], c)
  }

  /** The total holds, for each colour, the sum of that colour's amounts. */
  lemma {:induction false} TotalByColour(items: seq<Item>, c: Colour)
    ensures Total(items).Get(c) == ColourSum(items, c)
  {
    if items != [] {
      TotalByColour(items[1..], c);
    }
  }

  /** The pieces of a round: the trimmed round split at ','. */
  function RoundPieces(round: string): seq<string> {
    Split(Trim(round), ',')
  }

  /** One piece of a round, trimmed and parsed. */
  function ParsePiece(p: string): Option<Item> {
    ParseItem(Trim(p))
  }

  /** A piece written after a comma, as " 3 blue", parses to its item. */
  lemma ParsePieceRender(it: Item)
    requires it.amount < U32_LIMIT
    ensures ParsePiece(" " + NatToString(it.amount) + " " + ColourName(it.colour)) == Some(it)
  {
    var a, b := NatToString(it.amount), ColourName(it.colour);
    var t := a + " " + b;
    assert t[0] == a[0] && t[|t| - 1] == b[|b| - 1];
    assert " " + a + " " + b == " " + t;
    TrimPadLeft(t);
    ParseItemRender(it);
  }

  /** The items of a round, one per piece; `None` when a piece does not
      parse. */
  function RoundItems(round: string): (r: Option<seq<Item>>)
    ensures r.Some? <==> forall k :: 0 <= k < |RoundPieces(round)| ==> ParsePiece(RoundPieces(round)[k]).Some?
    ensures r.Some? ==> |r.value| == |RoundPieces(round)|
    ensures r.Some? ==> forall k :: 0 <= k < |r.value| ==> ParsePiece(RoundPieces(round)[k]) == Some(r.value[k])
  {
    MapAll(RoundPieces(round), ParsePiece)
  }

  /** `cubes_in_round`: the sum of the round's items by colour. `None` is one
      of the panics. The split always gives at least one piece, so the
      reduction's "Expected at least 1 cube" is never reached. */
  function CubesInRound(round: string): (r: Option<CubeCount>)
    ensures r.Some? <==> RoundItems(round).Some?
    ensures r.Some? ==> forall c :: r.value.Get(c) == ColourSum(RoundItems(round).value, c)
  {
    match RoundItems(round)
    case None => None
    case Some(items) =>
      forall c ensures Total(items).Get(c) == ColourSum(items, c) {
        TotalByColour(items, c);
      }
      Some(Total(items))
  }

  // ----------------------------------------------------------------- games

  /** A game's rounds: never empty, as the reduction over them would panic
      ("Game should not be empty"). */
  type Rounds = rs: seq<CubeCount> | rs != [] witness [CubeCount(0, 0, 0)]

  datatype Game = Game(id: nat, rounds: Rounds)

  /** The bag of part 1. */
  const BAG := CubeCount(12, 13, 14)

  /** The text after a game's ':': its rounds between ';', each a count.
      `None` is a panic: a bad round, or no rounds at all ("Game should not
      be empty"). */
  function ParseRounds(roundsStr: string): (r: Option<Rounds>)
    ensures r.Some? <==> var pieces := SplitTerminator(Trim(roundsStr), ';');
      pieces != [] && forall k :: 0 <= k < |pieces| ==> CubesInRound(pieces[k]).Some?
    ensures r.Some? ==> var pieces := SplitTerminator(Trim(roundsStr), ';');
      |r.value| == |pieces| && forall k :: 0 <= k < |pieces| ==> CubesInRound(pieces[k]) == Some(r.value[k])
  {
    match MapAll(SplitTerminator(Trim(roundsStr), ';'), CubesInRound)
    case None => None
    case Some(rounds) => if rounds == [] then None else Some(rounds)
  }

  /** Part 1's game line "Game N: round; round; ...". `None` is a panic: a
      missing prefix or ':', a bad id, or bad rounds. */
  function ParseGame(ln: string): (r: Option<Game>)
    ensures r.Some? <==> (StripPrefix(ln, "Game ").Some? && ':' in StripPrefix(ln, "Game ").value &&
      var (idStr, roundsStr) := SplitOnce(StripPrefix(ln, "Game ").value, ':').value;
      ParseUnsigned(Trim(idStr), U64_LIMIT).Some? && ParseRounds(roundsStr).Some?)
    ensures r.Some? ==>
      var (idStr, roundsStr) := SplitOnce(StripPrefix(ln, "Game ").value, ':').value;
      r.value == Game(ParseUnsigned(Trim(idStr), U64_LIMIT).value, ParseRounds(roundsStr).value)
    ensures r.Some? ==> r.value.id < U64_LIMIT
  {
    match StripPrefix(ln, "Game ")
    case None => None
    case Some(rest) =>
      match SplitOnce(rest, ':')
      case None => None
      case Some((idStr, roundsStr)) =>
        match (ParseUnsigned(Trim(idStr), U64_LIMIT), ParseRounds(roundsStr))
        case (Some(id), Some(rounds)) => Some(Game(id, rounds))
        case _ => None
  }

  /** The text after the first ':' of a line starting "Game ": a game's
      rounds, whatever its id. */
  function RoundsText(ln: string): (r: Option<string>)
    ensures r.Some? <==> StripPrefix(ln, "Game ").Some? && ':' in StripPrefix(ln, "Game ").value
    ensures r.Some? ==> exists idStr :: ':' !in idStr && ln == "Game " + idStr + ":" + r.value
  {
    match StripPrefix(ln, "Game ")
    case None => None
    case Some(rest) =>
      match SplitOnce(rest, ':')
      case None => None
      case Some((idStr, roundsStr)) =>
        assert ln == "Game " + idStr + ":" + roundsStr;
        Some(roundsStr)
  }

  /** Part 2's game line: as part 1's, but the text before ':' is never
      parsed, so any id is accepted. */
  function ParseGameRounds(ln: string): (r: Option<Rounds>)
    ensures r.Some? <==> RoundsText(ln).Some? && ParseRounds(RoundsText(ln).value).Some?
    ensures r.Some? ==> r == ParseRounds(RoundsText(ln).value)
  {
    match RoundsText(ln)
    case None => None
    case Some(roundsStr) => ParseRounds(roundsStr)
  }

  /** Part 2 accepts every line part 1 does, with the same rounds. */
  lemma ParseGameRoundsAccepts(ln: string)
    requires ParseGame(ln).Some?
    ensures ParseGameRounds(ln) == Some(ParseGame(ln).value.rounds)
  {
  }

  /** A line whose id is not a number, such as "Game x: 3 red": part 1
      panics on it, part 2 takes its rounds. */
  lemma BadIdOnlyPart1(idStr: string, roundsStr: string)
    requires ':' !in idStr && ParseUnsigned(Trim(idStr), U64_LIMIT).None?
    ensures ParseGame("Game " + idStr + ":" + roundsStr).None?
    ensures ParseGameRounds("Game " + idStr + ":" + roundsStr) == ParseRounds(roundsStr)
  {
    var ln := "Game " + idStr + ":" + roundsStr;
    var rest := idStr + [':'] + roundsStr;
    assert ln == "Game " + rest;
    assert StripPrefix(ln, "Game ") == Some(rest);
    SplitOnceAt(idStr, ':', roundsStr);
    assert SplitOnce(rest, ':') == Some((idStr, roundsStr));
    assert RoundsText(ln) == Some(roundsStr);
  }

  /** `reduce(CubeCount::max_cubes)`: the smallest bag with which every round
      is possible. */
  function Required(rounds: seq<CubeCount>): (r: CubeCount)
    requires rounds != []
    ensures forall i :: 0 <= i < |rounds| ==> rounds[i].Le(r)
    ensures forall c :: exists i :: 0 <= i < |rounds| && r.Get(c) == rounds[i].Get(c)
  {
    if |rounds| == 1 then rounds[0]
    else
      var rest := Required(rounds[1..]);
      var r := rounds[0].Max(rest);
      assert forall i :: 1 <= i < |rounds| ==> rounds[i] == rounds[1..][i - 1];
      forall c ensures exists i :: 0 <= i < |rounds| && r.Get(c) == rounds[i].Get(c) {
        var j :| 0 <= j < |rounds| - 1 && rest.Get(c) == rounds[1..][j].Get(c);
        assert r.Get(c) == rounds[0].Get(c) || r.Get(c) == rounds[j + 1].Get(c);
      }
      r
  }

  /** Any bag with which every round is possible contains the required one. */
  lemma {:induction false} RequiredLeast(rounds: seq<CubeCount>, bag: CubeCount)
    requires rounds != []
    requires forall i :: 0 <= i < |rounds| ==> rounds[i].Le(bag)
    ensures Required(rounds).Le(bag)
  {
    if |rounds| > 1 {
      assert forall i :: 0 <= i < |rounds| - 1 ==> rounds[1..][i] == rounds[i + 1];
      RequiredLeast(rounds[1..], bag);
      MaxLeast(rounds[0], Required(rounds[1..]), bag);
    }
  }

  /** The part 1 test: the required bag fits in `bag`. */
  predicate Possible(g: Game, bag: CubeCount)
  {
    Required(g.rounds).Le(bag)
  }

  /** A game is possible exactly when each of its rounds is. */
  lemma PossibleIff(g: Game, bag: CubeCount)
    ensures Possible(g, bag) <==> forall i :: 0 <= i < |g.rounds| ==> g.rounds[i].Le(bag)
  {
    if forall i :: 0 <= i < |g.rounds| ==> g.rounds[i].Le(bag) {
      RequiredLeast(g.rounds, bag);
    } else {
      var i :| 0 <= i < |g.rounds| && !g.rounds[i].Le(bag);
      assert g.rounds[i].Le(Required(g.rounds));
    }
  }

  /** Part 1: the sum of the ids of the games possible with `BAG`. */
  function Part1(games: seq<Game>): (r: nat)
    ensures r <= IdSum(games)
    ensures (forall i :: 0 <= i < |games| ==> Possible(games[i], BAG)) ==> r == IdSum(games)
    ensures (forall i :: 0 <= i < |games| ==> !Possible(games[i], BAG)) ==> r == 0
  {
    if games == [] then 0
    else
      assert forall i :: 1 <= i < |games| ==> games[1..][i - 1] == games[i];
      (if Possible(games[0], BAG) then games[0].id else 0) + Part1(games[1..])
  }

  /** The sum of all the games' ids. */
  function IdSum(games: seq<Game>): nat {
    if games == [] then 0 else games[0].id + IdSum(games[1..])
  }

  /** Colour `c` shows no cubes in any of the rounds. */
  predicate Absent(rounds: seq<CubeCount>, c: Colour) {
    forall j :: 0 <= j < |rounds| ==> rounds[j].Get(c) == 0
  }

  /** Some colour shows no cubes in any of the rounds. */
  ghost predicate MissesColour(rounds: seq<CubeCount>) {
    exists c :: Absent(rounds, c)
  }

  /** A game's power is zero exactly when some colour never shows. */
  lemma PowerZeroIff(rounds: seq<CubeCount>)
    requires rounds != []
    ensures Required(rounds).Power() == 0 <==> MissesColour(rounds)
  {
    var r := Required(rounds);
    assert r.Power() == 0 <==> exists c :: r.Get(c) == 0 by {
      assert r.red == r.Get(Red) && r.green == r.Get(Green) && r.blue == r.Get(Blue);
    }
    forall c ensures r.Get(c) == 0 <==> Absent(rounds, c) {
      var i :| 0 <= i < |rounds| && r.Get(c) == rounds[i].Get(c);
      assert forall j :: 0 <= j < |rounds| ==> rounds[j].Get(c) <= r.Get(c) by {
        forall j | 0 <= j < |rounds| ensures rounds[j].Get(c) <= r.Get(c) {
          assert rounds[j].Le(r);
        }
      }
    }
  }

  /** Part 2: the sum of the powers of the games' required bags; a game is
      given by its rounds alone. */
  function Part2(games: seq<Rounds>): (r: nat)
    ensures forall i :: 0 <= i < |games| ==> Required(games[i]).Power() <= r
  {
    if games == [] then 0
    else
      assert forall i :: 1 <= i < |games| ==> games[1..][i - 1] == games[i];
      Required(games[0]).Power() + Part2(games[1..])
  }

  /** The sum is 0 exactly when every game has a colour none of its rounds
      shows. */
  lemma {:induction false} Part2ZeroIff(games: seq<Rounds>)
    ensures Part2(games) == 0 <==> forall i :: 0 <= i < |games| ==> MissesColour(games[i])
  {
    if games != [] {
      assert forall i :: 1 <= i < |games| ==> games[1..][i - 1] == games[i];
      PowerZeroIff(games[0]);
      Part2ZeroIff(games[1..]);
    }
  }

  /** `games` holds, line by line, the rounds part 2 parses from `lines`. */
  predicate PartTwoParse(lines: seq<string>, games: seq<Rounds>) {
    |games| == |lines| && forall k :: 0 <= k < |lines| ==> ParseGameRounds(lines[k]) == Some(games[k])
  }

  /** Part 2 on lines already trimmed: each is parsed with part 2's parse,
      which skips the id; `None` is the panic of a bad line. */
  function Part2Games(lines: seq<string>): (r: Option<nat>)
    ensures r.None? <==> exists k :: 0 <= k < |lines| && ParseGameRounds(lines[k]).None?
    ensures r.Some? ==> exists games :: PartTwoParse(lines, games) && r.value == Part2(games)
  {
    var parsed := MapAll(lines, ParseGameRounds);
    if parsed.None? then None
    else
      var games := parsed.value;
      assert PartTwoParse(lines, games);
      Some(Part2(games))
  }

  /** Part 2 on the input: its non-empty trimmed lines. */
  function Part2Lines(input: seq<string>): (r: Option<nat>)
    ensures r.Some? ==> forall k :: 0 <= k < |TrimmedLines(input)| ==> ParseGameRounds(TrimmedLines(input)[k]).Some?
    ensures (forall k :: 0 <= k < |TrimmedLines(input)| ==> ParseGameRounds(TrimmedLines(input)[k]).Some?) ==> r.Some?
    ensures r.Some? ==> exists games :: PartTwoParse(TrimmedLines(input), games) && r.value == Part2(games)
  {
    Part2Games(TrimmedLines(input))
  }
}
