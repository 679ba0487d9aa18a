/** problem_4: scratchcards. A card lists winning numbers and chosen numbers;
    its match count is the number of distinct numbers on both lists. Part 1
    scores a card by doubling per match; part 2 lets each card win copies of
    the cards after it, which cascade. */
module Scratchcards {
  import opened Wrappers
  import opened Text

  datatype Card = Card(winning: seq<nat>, chosen: seq<nat>)

  /** The per-line parse of both parts: strip "Card ", split off the id at
      ':', then read the rest. `None` is one of the panics of the source. */
  function ParseCardLine(ln: string): (r: Option<Card>)
    ensures r.Some? <==> (StripPrefix(ln, "Card ").Some?
                          && ':' in Trim(StripPrefix(ln, "Card ").value)
                          && ParseCardBody(Trim(SplitOnce(Trim(StripPrefix(ln, "Card ").value), ':').value.1)).Some?)
    ensures r.Some? ==> r == ParseCardBody(Trim(SplitOnce(Trim(StripPrefix(ln, "Card ").value), ':').value.1))
    ensures r.Some? ==> forall x :: x in r.value.winning || x in r.value.chosen ==> x < U32_LIMIT
  {
    match StripPrefix(ln, "Card ")
    case None => None
    case Some(withoutCard) =>
      match SplitOnce(Trim(withoutCard), ':')
      case None => None
      case Some(parts) => ParseCardBody(Trim(parts.1))
  }

  /** The numbers of a card after its id: two `u32` lists split at '|'. */
  function ParseCardBody(mainLine: string): (r: Option<Card>)
    ensures r.Some? <==> ('|' in mainLine
                          && ParseNumList(SplitOnce(mainLine, '|').value.0, U32_LIMIT).Some?
                          && ParseNumList(SplitOnce(mainLine, '|').value.1, U32_LIMIT).Some?)
    ensures r.Some? ==> ParseNumList(SplitOnce(mainLine, '|').value.0, U32_LIMIT) == Some(r.value.winning)
    ensures r.Some? ==> ParseNumList(SplitOnce(mainLine, '|').value.1, U32_LIMIT) == Some(r.value.chosen)
    ensures r.Some? ==> forall x :: x in r.value.winning || x in r.value.chosen ==> x < U32_LIMIT
  {
    match SplitOnce(mainLine, '|')
    case None => None
    case Some(halves) =>
      var w := ParseNumList(halves.0, U32_LIMIT);
      var c := ParseNumList(halves.1, U32_LIMIT);
      if w.Some? && c.Some? then
        Some(Card(w.value, c.value))
      else None
  }

  function Elements(s: seq<nat>): set<nat> {
    set x | x in s
  }

  /** The distinct numbers of a sequence are no more than its length. */
  lemma {:induction false} ElementsBound(s: seq<nat>)
    ensures |Elements(s)| <= |s|
  {
    if s != [] {
      ElementsBound(s[1..]);
      assert Elements(s) == {s[0]} + Elements(s[1..]);
    }
  }

  /** The number of distinct winning numbers that were also chosen; repeats
      on either list count once. */
  function MatchCount(card: Card): (n: nat)
    ensures n == 0 <==> forall x :: x in card.winning ==> x !in card.chosen
    ensures n <= |card.winning| && n <= |card.chosen|
  {
    var both := Elements(card.winning) * Elements(card.chosen);
    ElementsBound(card.winning);
    ElementsBound(card.chosen);
    assert both <= Elements(card.winning) && both <= Elements(card.chosen);
    SubsetCard(both, Elements(card.winning));
    SubsetCard(both, Elements(card.chosen));
    assert forall x :: x in card.winning && x in card.chosen ==> x in both;
    if both == {} then 0
    else
      var x :| x in both;
      assert x in card.winning && x in card.chosen;
      |both|
  }

  lemma SubsetCard(a: set<nat>, b: set<nat>)
    requires a <= b
    ensures |a| <= |b|
  {
    assert b == a + (b - a);
  }

  function Pow2(k: nat): (r: nat)
    ensures r >= 1
  {
    if k == 0 then 1 else 2 * Pow2(k - 1)
  }

  lemma {:induction false} Pow2Monotone(a: nat, b: nat)
    requires a <= b
    ensures Pow2(a) <= Pow2(b)
    decreases b
  {
    if a < b {
      Pow2Monotone(a, b - 1);
    }
  }

  /** The part 1 value of a card with `n` matches: 0, or `1 << (n - 1)` in
      `u32`, where a shift by 32 or more is a panic (`None`). */
  function Score(n: nat): (r: Option<nat>)
    ensures r.Some? <==> n <= 32
    ensures r == Some(0) <==> n == 0
    ensures r.Some? && n > 0 ==> r.value == Pow2(n - 1) && r.value < U32_LIMIT
  {
    if n == 0 then Some(0)
    else if n - 1 < 32 then
      Pow2Monotone(n - 1, 31);
      Pow2ThirtyOne();
      Some(Pow2(n - 1))
    else None
  }

  lemma {:induction false} Pow2Add(a: nat, b: nat)
    ensures Pow2(a + b) == Pow2(a) * Pow2(b)
    decreases b
  {
    if b > 0 {
      Pow2Add(a, b - 1);
      assert Pow2(a + b) == 2 * Pow2(a + b - 1);
    }
  }

  lemma Pow2ThirtyOne()
    ensures Pow2(31) == 0x8000_0000
  {
    assert Pow2(3) == 8;
    Pow2Add(3, 1);
    Pow2Add(4, 3);
    Pow2Add(4, 4);
    Pow2Add(8, 7);
    Pow2Add(8, 8);
    Pow2Add(16, 15);
  }

  /** Each further match doubles the score. */
  lemma ScoreDoubles(n: nat)
    requires 1 <= n < 32
    ensures Score(n + 1).value == 2 * Score(n).value
  {
  }

  /** Part 1: the sum of the card scores. */
  function Part1(cards: seq<Card>): (r: Option<nat>)
    ensures r.Some? <==> forall i :: 0 <= i < |cards| ==> MatchCount(cards[i]) <= 32
  {
    if cards == [] then Some(0)
    else
      var rest := Part1(cards[1..]);
      assert forall i :: 1 <= i < |cards| ==> cards[i] == cards[1..][i - 1];
      match (Score(MatchCount(cards[0])), rest)
      case (Some(s), Some(t)) => Some(s + t)
      case _ => None
  }

  // ------------------------------------------------------------ part 2

  /** The final number of copies of card `j`: the original, plus one copy per
      copy of every earlier card `i` whose matches reach card `j`. */
  function CardCount(nMatching: seq<nat>, j: nat): (r: nat)
    requires j < |nMatching|
    ensures r >= 1
    decreases j, 1
  {
    1 + WonFrom(nMatching, j, j)
  }

  /** The copies of card `j` that the cards before `i` win. */
  function WonFrom(nMatching: seq<nat>, j: nat, i: nat): nat
    requires j < |nMatching| && i <= |nMatching|
    decreases i, 0
  {
    if i == 0 then 0
    else WonFrom(nMatching, j, i - 1) + (if Reaches(nMatching, i - 1, j) then CardCount(nMatching, i - 1) else 0)
  }

  /** Card `i` wins a copy of card `j`. */
  predicate Reaches(nMatching: seq<nat>, i: nat, j: nat)
    requires i < |nMatching|
  {
    i < j <= i + nMatching[i]
  }

  /** Cards at or after `j` win no copies of card `j`. */
  lemma {:induction false} WonFromStable(nMatching: seq<nat>, j: nat, i: nat)
    requires j <= i <= |nMatching| && j < |nMatching|
    ensures WonFrom(nMatching, j, i) == WonFrom(nMatching, j, j)
    decreases i
  {
    if i > j {
      WonFromStable(nMatching, j, i - 1);
    }
  }

  /** The `amounts` cascade of part 2: every card starts with one copy, and
      iteration `i` adds the copies of card `i` to each of the next
      `nMatching[i]` cards. Indexing past the last card is a panic, which the
      `requires` excludes. */
  method Cascade(nMatching: seq<nat>) returns (r: seq<nat>)
    requires forall i :: 0 <= i < |nMatching| ==> i + nMatching[i] < |nMatching|
    ensures |r| == |nMatching|
    ensures forall j :: 0 <= j < |r| ==> r[j] == CardCount(nMatching, j)
  {
    var n := |nMatching|;
    var amounts := new nat[n](_ => 1);
    var i := 0;
    while i < n
      invariant i <= n
      invariant forall x :: 0 <= x < n ==> amounts[x] == 1 + WonFrom(nMatching, x, i)
    {
      WonFromStable(nMatching, i, i);
      var currAmount := amounts[i];
      assert currAmount == CardCount(nMatching, i);
      var currMatching := nMatching[i];
      var j := i + 1;
      while j < i + 1 + currMatching
        invariant i + 1 <= j <= i + 1 + currMatching
        invariant forall x :: 0 <= x < n ==>
          amounts[x] == 1 + WonFrom(nMatching, x, i) + (if i < x < j then currAmount else 0)
      {
        amounts[j] := amounts[j] + currAmount;
        j := j + 1;
      }
      assert amounts[i] == currAmount;
      forall x | 0 <= x < n ensures amounts[x] == 1 + WonFrom(nMatching, x, i + 1) {
        assert Reaches(nMatching, i, x) <==> i < x < j;
      }
      i := i + 1;
    }
    forall x | 0 <= x < n ensures amounts[x] == CardCount(nMatching, x) {
      WonFromStable(nMatching, x, n);
    }
    r := amounts[..];
  }

  function Sum(s: seq<nat>): (r: nat)
    ensures r >= |s| || exists k :: 0 <= k < |s| && s[k] == 0
  {
    if s == [] then 0 else s[0] + Sum(s[1..])
  }

  /** Part 2: the total number of cards, at least one per card. */
  method Part2(nMatching: seq<nat>) returns (total: nat)
    requires forall i :: 0 <= i < |nMatching| ==> i + nMatching[i] < |nMatching|
    ensures total == Sum(seq(|nMatching|, (j: int) requires 0 <= j < |nMatching| => CardCount(nMatching, j)))
    ensures total >= |nMatching|
  {
    var amounts := Cascade(nMatching);
    assert amounts == seq(|nMatching|, (j: int) requires 0 <= j < |nMatching| => CardCount(nMatching, j));
    total := Sum(amounts);
  }
}
