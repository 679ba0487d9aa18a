/** problem_7, part 2: Camel Cards with jokers. A hand of five cards gets a
    category from the multiplicities of its cards, where a joker counts as
    whichever ordinary card gives the best category. Hands are ordered by
    category, then card by card, and the winnings add up rank times bid. */
module CamelCards {
  import opened Wrappers
  import opened Text

  /** The value of a joker; the other values are 2..10 and 12..14. */
  const JOKER: nat := 1

  predicate ValidCard(v: nat) {
    1 <= v <= 14 && v != 11
  }

  /** `Card::new`; `None` is its failing assertion. */
  function NewCard(v: nat): (r: Option<nat>)
    ensures r.Some? <==> ValidCard(v)
    ensures r.Some? ==> r.value == v
  {
    if 1 <= v && v <= 14 && v != 11 then Some(v) else None
  }

  /** `CardList::new`; `None` is its failing assertion. */
  function NewCardList(cards: seq<nat>): (r: Option<seq<nat>>)
    ensures r.Some? <==> |cards| == 5
    ensures r.Some? ==> r.value == cards
  {
    if |cards| == 5 then Some(cards) else None
  }

  /** `parse_card`; `None` is the panic on any other character. */
  function ParseCard(c: char): (r: Option<nat>)
    ensures r.Some? <==> c in "TJQKA23456789"
    ensures r.Some? ==> ValidCard(r.value)
    ensures r == Some(JOKER) <==> c == 'J'
    ensures '2' <= c <= '9' ==> r == Some(DigitValue(c))
  {
    match c
    case 'T' => NewCard(10)
    case 'J' => NewCard(1)
    case 'Q' => NewCard(12)
    case 'K' => NewCard(13)
    case 'A' => NewCard(14)
    case _ =>
      if '2' <= c <= '9' then NewCard(DigitValue(c))
      else
        assert c !in "TJQKA23456789";
        None
  }

  /** `parse_hand`: the trimmed text as five cards. */
  function ParseHand(s: string): (r: Option<seq<nat>>)
    ensures r.Some? <==> |Trim(s)| == 5 && forall i :: 0 <= i < 5 ==> ParseCard(Trim(s)[i]).Some?
    ensures r.Some? ==> |r.value| == 5
    ensures r.Some? ==> forall i :: 0 <= i < 5 ==> Some(r.value[i]) == ParseCard(Trim(s)[i])
  {
    match MapAll(Trim(s), ParseCard)
    case None => None
    case Some(cards) => NewCardList(cards)
  }

  // ------------------------------------------------------ categories

  datatype Category = HighCard | OnePair | TwoPair | ThreeOfKind | FullHouse | FourOfKind | FiveOfKind

  /** The position of a category in the derived order, lowest first. */
  function Rank(c: Category): (r: nat)
    ensures r <= 6
  {
    match c
    case HighCard => 0
    case OnePair => 1
    case TwoPair => 2
    case ThreeOfKind => 3
    case FullHouse => 4
    case FourOfKind => 5
    case FiveOfKind => 6
  }

  function MaxCategory(a: Category, b: Category): (r: Category)
    ensures Rank(r) >= Rank(a) && Rank(r) >= Rank(b)
    ensures r == a || r == b
  {
    if Rank(a) >= Rank(b) then a else b
  }

  /** How often `v` occurs among the cards. */
  function Multiplicity(cards: seq<nat>, v: nat): nat {
    multiset(cards)[v]
  }

  /** The distinct cards in order of first occurrence. */
  function Distinct(cards: seq<nat>): (d: seq<nat>)
    ensures forall v :: v in d <==> v in cards
    ensures forall i, j :: 0 <= i < j < |d| ==> d[i] != d[j]
  {
    if cards == [] then []
    else
      var rest := Distinct(cards[1..]);
      if cards[0] in rest then
        assert forall v :: v in cards <==> v == cards[0] || v in cards[1..] by {
          assert cards == [cards[0]] + cards[1..];
        }
        rest
      else
        assert forall v :: v in cards <==> v == cards[0] || v in cards[1..] by {
          assert cards == [cards[0]] + cards[1..];
        }
        [cards[0]] + rest
  }

  /** The multiplicity of each distinct card, as the counter holds them. */
  function Counts(cards: seq<nat>): (r: seq<nat>)
    ensures |r| == |Distinct(cards)|
    ensures forall i :: 0 <= i < |r| ==> r[i] == Multiplicity(cards, Distinct(cards)[i])
    ensures forall i :: 0 <= i < |r| ==> r[i] >= 1
    ensures CountSum(r) == |cards|
  {
    var d := Distinct(cards);
    CountsOverTotal(cards, d);
    var r := CountsOver(multiset(cards), d);
    forall i | 0 <= i < |r| ensures r[i] >= 1 {
      assert d[i] in cards;
    }
    r
  }

  /** The multiplicities in `m` of the values of `d`, in order. */
  function CountsOver(m: multiset<nat>, d: seq<nat>): (r: seq<nat>)
    ensures |r| == |d| && forall i :: 0 <= i < |d| ==> r[i] == m[d[i]]
  {
    if d == [] then [] else [m[d[0]]] + CountsOver(m, d[1..])
  }

  function CountSum(s: seq<nat>): nat {
    if s == [] then 0 else s[0] + CountSum(s[1..])
  }

  /** One more card adds one to its own count, when the values listed are
      distinct. */
  lemma {:induction false} CountsOverAdd(m: multiset<nat>, c: nat, d: seq<nat>)
    requires forall i, j :: 0 <= i < j < |d| ==> d[i] != d[j]
    ensures CountSum(CountsOver(m + multiset{c}, d)) == CountSum(CountsOver(m, d)) + (if c in d then 1 else 0)
  {
    if d != [] {
      CountsOverAdd(m, c, d[1..]);
      assert c in d <==> c == d[0] || c in d[1..];
      assert c == d[0] ==> c !in d[1..];
    }
  }

  lemma {:induction false} CountsOverNone(d: seq<nat>)
    ensures CountSum(CountsOver(multiset{}, d)) == 0
  {
    if d != [] {
      CountsOverNone(d[1..]);
    }
  }

  /** The counts over distinct values covering the cards add up to the
      number of cards. */
  lemma {:induction false} CountsOverTotal(cards: seq<nat>, d: seq<nat>)
    requires forall i, j :: 0 <= i < j < |d| ==> d[i] != d[j]
    requires forall v :: v in cards ==> v in d
    ensures CountSum(CountsOver(multiset(cards), d)) == |cards|
  {
    if cards == [] {
      CountsOverNone(d);
    } else {
      assert cards == [cards[0]] + cards[1..];
      assert multiset(cards) == multiset(cards[1..]) + multiset{cards[0]};
      assert cards[0] in d;
      CountsOverTotal(cards[1..], d);
      CountsOverAdd(multiset(cards[1..]), cards[0], d);
    }
  }

  predicate Descending(s: seq<nat>) {
    forall i, j :: 0 <= i < j < |s| ==> s[i] >= s[j]
  }

  /** `x` put before the first smaller element. */
  function InsertDesc(x: nat, s: seq<nat>): (r: seq<nat>)
    ensures multiset(r) == multiset(s) + multiset{x}
  {
    if s == [] || x >= s[0] then [x] + s
    else
      MultisetCons(s);
      [s[0]] + InsertDesc(x, s[1..])
  }

  /** Insertion keeps a sequence descending. */
  lemma {:induction false} InsertDescending(x: nat, s: seq<nat>)
    requires Descending(s)
    ensures Descending(InsertDesc(x, s))
  {
    if s == [] || x >= s[0] {
      DescendingCons(x, s);
    } else {
      MultisetCons(s);
      DescendingHeadMax(s);
      InsertDescending(x, s[1..]);
      var rest := InsertDesc(x, s[1..]);
      assert forall y :: y in multiset(rest) ==> y == x || y in multiset(s);
      DescendingCons(s[0], rest);
    }
  }

  /** The head of a descending sequence is its largest element, and its
      tail is descending. */
  lemma DescendingHeadMax(s: seq<nat>)
    requires Descending(s) && s != []
    ensures forall y :: y in multiset(s) ==> y <= s[0]
    ensures Descending(s[1..])
  {
    forall y | y in multiset(s) ensures y <= s[0] {
      var k :| 0 <= k < |s| && s[k] == y;
    }
    forall i, j | 0 <= i < j < |s| - 1 ensures s[1..][i] >= s[1..][j] {
      assert s[1..][i] == s[i + 1] && s[1..][j] == s[j + 1];
    }
  }

  lemma MultisetCons<T>(s: seq<T>)
    requires s != []
    ensures multiset(s) == multiset{s[0]} + multiset(s[1..])
  {
    assert s == [s[0]] + s[1..];
  }

  /** A head no smaller than any element keeps a sequence descending. */
  lemma DescendingCons(h: nat, t: seq<nat>)
    requires Descending(t)
    requires forall y :: y in multiset(t) ==> y <= h
    ensures Descending([h] + t)
  {
    forall i, j | 0 <= i < j < |t| + 1 ensures ([h] + t)[i] >= ([h] + t)[j] {
      assert t[j - 1] in multiset(t);
    }
  }

  /** The multiplicities sorted from most to least common. */
  function SortDesc(s: seq<nat>): (r: seq<nat>)
    ensures Descending(r) && multiset(r) == multiset(s)
  {
    if s == [] then []
    else
      MultisetCons(s);
      InsertDescending(s[0], SortDesc(s[1..]));
      InsertDesc(s[0], SortDesc(s[1..]))
  }

  /** `Counter::most_common`, by the counts it returns. */
  function MostCommon(cards: seq<nat>): (r: seq<nat>)
    ensures Descending(r) && multiset(r) == multiset(Counts(cards))
  {
    SortDesc(Counts(cards))
  }

  /** The slice patterns of `categorize_simple`, in their order. */
  function CategorizeCounts(m: seq<nat>): Category {
    if |m| >= 1 && m[0] == 5 then FiveOfKind
    else if |m| >= 1 && m[0] == 4 then FourOfKind
    else if m == [3, 2] then FullHouse
    else if |m| >= 1 && m[0] == 3 then ThreeOfKind
    else if |m| >= 2 && m[0] == 2 && m[1] == 2 then TwoPair
    else if |m| >= 1 && m[0] == 2 then OnePair
    else HighCard
  }

  /** The largest multiplicity of any card, 0 for no cards. */
  function MaxMultiplicity(cards: seq<nat>): (r: nat)
    ensures forall v :: Multiplicity(cards, v) <= r
    ensures cards != [] ==> exists i :: 0 <= i < |cards| && Multiplicity(cards, cards[i]) == r
  {
    var m := MostCommon(cards);
    var d := Distinct(cards);
    if m == [] then
      assert |Counts(cards)| == 0;
      assert forall v :: v !in cards;
      0
    else
      assert m[0] in multiset(Counts(cards));
      var k :| 0 <= k < |Counts(cards)| && Counts(cards)[k] == m[0];
      assert d[k] in cards;
      forall v ensures Multiplicity(cards, v) <= m[0] {
        if v in cards {
          var j :| 0 <= j < |d| && d[j] == v;
          assert Counts(cards)[j] in multiset(m);
          var p :| 0 <= p < |m| && m[p] == Counts(cards)[j];
          assert m[0] >= m[p];
        }
      }
      m[0]
  }

  /** The category the slice patterns give for some cards. */
  function CountsCategory(cards: seq<nat>): Category {
    CategorizeCounts(MostCommon(cards))
  }

  /** `categorize_simple`, which must not see a joker. */
  function CategorizeSimple(cards: seq<nat>): (r: Category)
    requires JOKER !in cards
  {
    CountsCategory(cards)
  }

  /** The category is decided first by the largest multiplicity: five, four,
      three (full house or three of a kind), two (two pair or one pair), and
      no repeat at all. */
  lemma CategoryByMultiplicity(cards: seq<nat>)
    requires JOKER !in cards
    ensures CategorizeSimple(cards) == FiveOfKind <==> MaxMultiplicity(cards) == 5
    ensures CategorizeSimple(cards) == FourOfKind <==> MaxMultiplicity(cards) == 4
    ensures CategorizeSimple(cards) in {FullHouse, ThreeOfKind} <==> MaxMultiplicity(cards) == 3
    ensures CategorizeSimple(cards) in {TwoPair, OnePair} <==> MaxMultiplicity(cards) == 2
    ensures CategorizeSimple(cards) == HighCard <==> MaxMultiplicity(cards) !in {2, 3, 4, 5}
  {
  }

  // ---------------------------------------------------------- jokers

  /** The cards the jokers may stand for: 2..10 and 12..14. */
  const NORMAL_CARDS: seq<nat> := [2, 3, 4, 5, 6, 7, 8, 9, 10, 12, 13, 14]

  /** An ordinary card: any valid card but the joker. */
  predicate IsNormal(v: nat) {
    ValidCard(v) && v != JOKER
  }

  /** `NORMAL_CARDS` lists exactly the ordinary cards. */
  lemma NormalCardsExact(v: nat)
    ensures IsNormal(v) <==> v in NORMAL_CARDS
  {
  }

  /** `r` is `cards` with every joker at index `i` or later replaced by an
      ordinary card and every other card kept. */
  predicate ReplacesFrom(cards: seq<nat>, r: seq<nat>, i: nat) {
    && |r| == |cards|
    && (forall k :: 0 <= k < |cards| && (k < i || cards[k] != JOKER) ==> r[k] == cards[k])
    && (forall k :: i <= k < |cards| && cards[k] == JOKER ==> IsNormal(r[k]))
  }

  /** The best `key` over the joker replacements from index `i` on, with
      the remaining candidates for index `i` starting at `NORMAL_CARDS[c]`;
      `key` is the category of a hand whose jokers are all replaced. */
  function Best(key: seq<nat> -> Category, cards: seq<nat>, i: nat, c: nat): Category
    requires i <= |cards| && c < |NORMAL_CARDS|
    decreases |cards| - i, |NORMAL_CARDS| - c
  {
    if i == |cards| then key(cards)
    else if cards[i] != JOKER then Best(key, cards, i + 1, 0)
    else
      var here := Best(key, cards[i := NORMAL_CARDS[c]], i + 1, 0);
      if c + 1 == |NORMAL_CARDS| then here else MaxCategory(here, Best(key, cards, i, c + 1))
  }

  /** `categorize`: with no joker the simple category, else the largest over
      all replacements of the jokers. */
  function Categorize(cards: seq<nat>): (r: Category)
    ensures JOKER !in cards ==> r == CategorizeSimple(cards)
  {
    if JOKER !in cards then CategorizeSimple(cards) else Best(CountsCategory, cards, 0, 0)
  }

  /** A replacement of every joker leaves none. */
  lemma ReplacedHasNoJoker(cards: seq<nat>, r: seq<nat>)
    requires ReplacesFrom(cards, r, 0)
    ensures JOKER !in r
  {
    assert forall k :: 0 <= k < |r| ==> r[k] != JOKER;
  }

  /** No replacement of the jokers beats `Categorize`. */
  lemma CategorizeIsUpperBound(cards: seq<nat>, r: seq<nat>)
    requires ReplacesFrom(cards, r, 0)
    ensures JOKER !in r && Rank(CategorizeSimple(r)) <= Rank(Categorize(cards))
  {
    ReplacedHasNoJoker(cards, r);
    if JOKER !in cards {
      assert r == cards;
    } else {
      BestIsUpperBound(CountsCategory, cards, 0, 0, r);
    }
  }

  lemma CategorizeIsBest(cards: seq<nat>)
    ensures forall r :: ReplacesFrom(cards, r, 0) && JOKER !in r ==> Rank(CategorizeSimple(r)) <= Rank(Categorize(cards))
  {
    forall r | ReplacesFrom(cards, r, 0) && JOKER !in r {
      CategorizeIsUpperBound(cards, r);
    }
  }

  lemma {:induction false} BestIsUpperBound(key: seq<nat> -> Category, cards: seq<nat>, i: nat, c: nat, r: seq<nat>)
    requires i <= |cards| && c < |NORMAL_CARDS|
    requires ReplacesFrom(cards, r, i)
    requires i < |cards| && cards[i] == JOKER ==> r[i] >= NORMAL_CARDS[c]
    ensures Rank(key(r)) <= Rank(Best(key, cards, i, c))
    decreases |cards| - i, |NORMAL_CARDS| - c
  {
    if i == |cards| {
      assert r == cards;
    } else if cards[i] != JOKER {
      ReplacesSkip(cards, r, i);
      BestIsUpperBound(key, cards, i + 1, 0, r);
    } else if r[i] == NORMAL_CARDS[c] {
      ReplacesSubst(cards, r, i, NORMAL_CARDS[c]);
      BestIsUpperBound(key, cards[i := NORMAL_CARDS[c]], i + 1, 0, r);
    } else {
      NormalNext(r[i], c);
      BestIsUpperBound(key, cards, i, c + 1, r);
    }
  }

  /** A non-joker position is kept whether or not it counts as replaced. */
  lemma ReplacesSkip(cards: seq<nat>, r: seq<nat>, i: nat)
    requires i < |cards| && cards[i] != JOKER
    ensures ReplacesFrom(cards, r, i) <==> ReplacesFrom(cards, r, i + 1)
  {
  }

  /** Replacing the joker at `i` by `v` is the first step of a replacement. */
  lemma ReplacesSubst(cards: seq<nat>, r: seq<nat>, i: nat, v: nat)
    requires i < |cards| && cards[i] == JOKER && IsNormal(v)
    ensures ReplacesFrom(cards[i := v], r, i + 1) <==> (ReplacesFrom(cards, r, i) && r[i] == v)
  {
  }

  /** The ordinary cards are in increasing order. */
  lemma NormalNext(v: nat, c: nat)
    requires c < |NORMAL_CARDS| && IsNormal(v) && v > NORMAL_CARDS[c]
    ensures c + 1 < |NORMAL_CARDS| && v >= NORMAL_CARDS[c + 1]
  {
  }

  /** Some replacement of the jokers reaches `Categorize`. */
  lemma CategorizeIsAttained(cards: seq<nat>)
    ensures exists r :: ReplacesFrom(cards, r, 0) && JOKER !in r && CategorizeSimple(r) == Categorize(cards)
  {
    if JOKER !in cards {
      assert ReplacesFrom(cards, cards, 0);
    } else {
      BestIsAttained(CountsCategory, cards, 0, 0);
      var r :| ReplacesFrom(cards, r, 0) && CountsCategory(r) == Best(CountsCategory, cards, 0, 0);
      ReplacedHasNoJoker(cards, r);
    }
  }

  lemma {:induction false} BestIsAttained(key: seq<nat> -> Category, cards: seq<nat>, i: nat, c: nat)
    requires i <= |cards| && c < |NORMAL_CARDS|
    ensures exists r :: ReplacesFrom(cards, r, i) && key(r) == Best(key, cards, i, c)
    decreases |cards| - i, |NORMAL_CARDS| - c
  {
    if i == |cards| {
      assert ReplacesFrom(cards, cards, i);
    } else if cards[i] != JOKER {
      BestIsAttained(key, cards, i + 1, 0);
      var r :| ReplacesFrom(cards, r, i + 1) && key(r) == Best(key, cards, i + 1, 0);
      ReplacesSkip(cards, r, i);
    } else {
      var next := cards[i := NORMAL_CARDS[c]];
      if Best(key, cards, i, c) == Best(key, next, i + 1, 0) {
        BestIsAttained(key, next, i + 1, 0);
        var r :| ReplacesFrom(next, r, i + 1) && key(r) == Best(key, next, i + 1, 0);
        ReplacesSubst(cards, r, i, NORMAL_CARDS[c]);
      } else {
        BestIsAttained(key, cards, i, c + 1);
      }
    }
  }

  /** The loop of `categorize` that writes one substitution per joker into a
      copy of the cards; an index past the end would panic. */
  method Substitute(cards: seq<nat>, subs: seq<(nat, nat)>) returns (cardsCp: seq<nat>)
    requires forall s :: 0 <= s < |subs| ==> subs[s].0 < |cards|
    ensures |cardsCp| == |cards|
    ensures JokerSubs(cards, subs) ==> ReplacesFrom(cards, cardsCp, 0)
    ensures forall k :: 0 <= k < |cards| && (forall s :: 0 <= s < |subs| ==> subs[s].0 != k) ==> cardsCp[k] == cards[k]
    ensures forall s :: 0 <= s < |subs| && (forall t :: s < t < |subs| ==> subs[t].0 != subs[s].0) ==>
      cardsCp[subs[s].0] == subs[s].1
  {
    cardsCp := cards;
    var n := 0;
    while n < |subs|
      invariant n <= |subs| && |cardsCp| == |cards|
      invariant forall k :: 0 <= k < |cards| && (forall s :: 0 <= s < n ==> subs[s].0 != k) ==> cardsCp[k] == cards[k]
      invariant forall s :: 0 <= s < n && (forall t :: s < t < n ==> subs[t].0 != subs[s].0) ==>
        cardsCp[subs[s].0] == subs[s].1
    invariant JokerSubs(cards, subs) ==> forall s :: 0 <= s < n ==> IsNormal(cardsCp[subs[s].0])
    {
      cardsCp := cardsCp[subs[n].0 := subs[n].1];
      n := n + 1;
    }
    if JokerSubs(cards, subs) {
      forall k | 0 <= k < |cards| && cards[k] == JOKER ensures IsNormal(cardsCp[k]) {
        var s :| 0 <= s < |subs| && subs[s].0 == k;
      }
    }
  }

  /** The substitutions of one combination tried by `categorize`: each
      puts an ordinary card at a joker's index, and every joker's index has
      one. */
  ghost predicate JokerSubs(cards: seq<nat>, subs: seq<(nat, nat)>) {
    && (forall s :: 0 <= s < |subs| ==> subs[s].0 < |cards| && cards[subs[s].0] == JOKER && IsNormal(subs[s].1))
    && (forall k :: 0 <= k < |cards| && cards[k] == JOKER ==> exists s :: 0 <= s < |subs| && subs[s].0 == k)
  }

  // ------------------------------------------------- ordering, winnings

  datatype Hand = Hand(category: Category, cards: seq<nat>)

  /** `Hand::from_cards`. */
  function FromCards(cards: seq<nat>): (h: Hand)
    ensures h.cards == cards && h.category == Categorize(cards)
    ensures forall r :: ReplacesFrom(cards, r, 0) && JOKER !in r ==> Rank(CategorizeSimple(r)) <= Rank(h.category)
    ensures exists r :: ReplacesFrom(cards, r, 0) && JOKER !in r && CategorizeSimple(r) == h.category
  {
    CategorizeIsAttained(cards);
    CategorizeIsBest(cards);
    Hand(Categorize(cards), cards)
  }

  /** Lexicographic order on card values, as the derived `Ord` of a `Vec`. */
  predicate LexLe(a: seq<nat>, b: seq<nat>) {
    a == [] || (b != [] && (a[0] < b[0] || (a[0] == b[0] && LexLe(a[1..], b[1..]))))
  }

  /** The derived order of `(Hand, bid)`: category, then cards, then bid. */
  predicate EntryLe(a: (Hand, nat), b: (Hand, nat)) {
    || Rank(a.0.category) < Rank(b.0.category)
    || (Rank(a.0.category) == Rank(b.0.category) && a.0.cards != b.0.cards && LexLe(a.0.cards, b.0.cards))
    || (Rank(a.0.category) == Rank(b.0.category) && a.0.cards == b.0.cards && a.1 <= b.1)
  }

  lemma {:induction false} LexLeTotal(a: seq<nat>, b: seq<nat>)
    ensures LexLe(a, b) || LexLe(b, a)
  {
    if a != [] && b != [] && a[0] == b[0] {
      LexLeTotal(a[1..], b[1..]);
    }
  }

  lemma {:induction false} LexLeAntisymmetric(a: seq<nat>, b: seq<nat>)
    requires LexLe(a, b) && LexLe(b, a)
    ensures a == b
  {
    if a != [] {
      LexLeAntisymmetric(a[1..], b[1..]);
      assert a == [a[0]] + a[1..] && b == [b[0]] + b[1..];
    }
  }

  lemma {:induction false} LexLeTransitive(a: seq<nat>, b: seq<nat>, c: seq<nat>)
    requires LexLe(a, b) && LexLe(b, c)
    ensures LexLe(a, c)
  {
    if a != [] && a[0] == b[0] && b[0] == c[0] {
      LexLeTransitive(a[1..], b[1..], c[1..]);
    }
  }

  /** The entry order is total, so sorting is well defined. */
  lemma EntryLeTotal(a: (Hand, nat), b: (Hand, nat))
    ensures EntryLe(a, b) || EntryLe(b, a)
  {
    if a.0.cards != b.0.cards {
      LexLeTotal(a.0.cards, b.0.cards);
    }
  }

  lemma EntryLeTransitive(a: (Hand, nat), b: (Hand, nat), c: (Hand, nat))
    requires EntryLe(a, b) && EntryLe(b, c)
    ensures EntryLe(a, c)
  {
    if Rank(a.0.category) == Rank(b.0.category) == Rank(c.0.category) {
      if a.0.cards != b.0.cards && b.0.cards != c.0.cards {
        LexLeTransitive(a.0.cards, b.0.cards, c.0.cards);
        if a.0.cards == c.0.cards {
          LexLeAntisymmetric(a.0.cards, b.0.cards);
        }
      }
    }
  }

  predicate SortedEntries(s: seq<(Hand, nat)>) {
    forall i, j :: 0 <= i < j < |s| ==> EntryLe(s[i], s[j])
  }

  function InsertEntry(x: (Hand, nat), s: seq<(Hand, nat)>): (r: seq<(Hand, nat)>)
    requires SortedEntries(s)
    ensures SortedEntries(r) && multiset(r) == multiset(s) + multiset{x}
  {
    if s == [] || EntryLe(x, s[0]) then
      forall k | 0 <= k < |s| ensures EntryLe(x, s[k]) {
        if k > 0 {
          EntryLeTransitive(x, s[0], s[k]);
        }
      }
      SortedCons(x, s);
      [x] + s
    else
      EntryLeTotal(x, s[0]);
      MultisetCons(s);
      var rest := InsertEntry(x, s[1..]);
      forall k | 0 <= k < |rest| ensures EntryLe(s[0], rest[k]) {
        assert rest[k] in multiset(s[1..]) + multiset{x};
      }
      SortedCons(s[0], rest);
      [s[0]] + rest
  }

  /** A head ordered before every element keeps a sequence sorted. */
  lemma SortedCons(h: (Hand, nat), t: seq<(Hand, nat)>)
    requires SortedEntries(t)
    requires forall k :: 0 <= k < |t| ==> EntryLe(h, t[k])
    ensures SortedEntries([h] + t)
  {
    forall i, j | 0 <= i < j < |t| + 1 ensures EntryLe(([h] + t)[i], ([h] + t)[j]) {
      if i > 0 {
        assert ([h] + t)[i] == t[i - 1];
      }
    }
  }

  /** `sorted()` on the parsed lines, by what it returns: the same entries in
      ascending order. */
  function SortEntries(s: seq<(Hand, nat)>): (r: seq<(Hand, nat)>)
    ensures SortedEntries(r) && multiset(r) == multiset(s)
  {
    if s == [] then []
    else
      assert s == [s[0]] + s[1..];
      InsertEntry(s[0], SortEntries(s[1..]))
  }

  /** The sum of `rank * bid`, where the entry at index `k` has rank `k + 1`. */
  function Winnings(sorted: seq<(Hand, nat)>, k: nat): (r: nat)
    requires k <= |sorted|
    ensures BidSum(sorted[k..]) <= r <= |sorted| * BidSum(sorted[k..])
    decreases |sorted| - k
  {
    if k == |sorted| then 0
    else
      assert sorted[k..][1..] == sorted[k + 1..];
      RankTimesBid(k + 1, |sorted|, sorted[k].1, BidSum(sorted[k + 1..]));
      (k + 1) * sorted[k].1 + Winnings(sorted, k + 1)
  }

  /** The sum of the bids. */
  function BidSum(entries: seq<(Hand, nat)>): nat {
    if entries == [] then 0 else entries[0].1 + BidSum(entries[1..])
  }

  /** A rank from 1 to `n` scales a bid by at least 1 and at most `n`. */
  lemma RankTimesBid(rank: nat, n: nat, bid: nat, rest: nat)
    requires 1 <= rank <= n
    ensures bid <= rank * bid <= n * bid
    ensures n * (bid + rest) == n * bid + n * rest
  {
  }

  /** Part 2's answer for the parsed lines. */
  function TotalWinnings(entries: seq<(Hand, nat)>): (r: nat)
    ensures entries == [] ==> r == 0
  {
    Winnings(SortEntries(entries), 0)
  }

  /** Two sorted sequences of the same entries are the same sequence, so the
      answer depends only on the entries. */
  lemma {:induction false} SortedUnique(a: seq<(Hand, nat)>, b: seq<(Hand, nat)>)
    requires SortedEntries(a) && SortedEntries(b) && multiset(a) == multiset(b)
    ensures a == b
  {
    if a != [] {
      assert a[0] in multiset(b);
      SortedHeadLe(b, a[0]);
      assert b[0] in multiset(a);
      SortedHeadLe(a, b[0]);
      EntryLeAntisymmetric(a[0], b[0]);
      MultisetCons(a);
      MultisetCons(b);
      assert multiset(a[1..]) == multiset(a) - multiset{a[0]};
      assert multiset(b[1..]) == multiset(b) - multiset{b[0]};
      SortedTail(a);
      SortedTail(b);
      SortedUnique(a[1..], b[1..]);
      assert a == [a[0]] + a[1..] && b == [b[0]] + b[1..];
    }
  }

  lemma SortedTail(s: seq<(Hand, nat)>)
    requires SortedEntries(s) && s != []
    ensures SortedEntries(s[1..])
  {
    forall i, j | 0 <= i < j < |s| - 1 ensures EntryLe(s[1..][i], s[1..][j]) {
      assert s[1..][i] == s[i + 1] && s[1..][j] == s[j + 1];
    }
  }

  /** The head of a sorted sequence is ordered before each of its entries. */
  lemma SortedHeadLe(s: seq<(Hand, nat)>, x: (Hand, nat))
    requires SortedEntries(s) && x in multiset(s)
    ensures s != [] && EntryLe(s[0], x)
  {
    var i :| 0 <= i < |s| && s[i] == x;
  }

  /** The answer does not depend on the order of the input lines. */
  lemma WinningsOrderFree(a: seq<(Hand, nat)>, b: seq<(Hand, nat)>)
    requires multiset(a) == multiset(b)
    ensures TotalWinnings(a) == TotalWinnings(b)
  {
    SortedUnique(SortEntries(a), SortEntries(b));
  }

  lemma EntryLeAntisymmetric(a: (Hand, nat), b: (Hand, nat))
    requires EntryLe(a, b) && EntryLe(b, a)
    ensures a == b
  {
    if a.0.cards != b.0.cards {
      LexLeAntisymmetric(a.0.cards, b.0.cards);
    }
  }

  /** The line of part 2: a hand and a `u32` bid separated by whitespace. */
  function ParseLine(ln: string): (r: Option<(Hand, nat)>)
    ensures r.Some? <==> var t := SplitWhitespace(ln);
      |t| == 2 && ParseHand(t[0]).Some? && ParseUnsigned(t[1], U32_LIMIT).Some?
    ensures r.Some? ==> var t := SplitWhitespace(ln);
      |t| == 2 && r.value == (FromCards(ParseHand(t[0]).value), ParseUnsigned(t[1], U32_LIMIT).value)
    ensures r.Some? ==> r.value.1 < U32_LIMIT && |r.value.0.cards| == 5
  {
    var tokens := SplitWhitespace(ln);
    if |tokens| != 2 then None
    else
      match (ParseHand(tokens[0]), ParseUnsigned(tokens[1], U32_LIMIT))
      case (Some(cards), Some(bid)) => Some((FromCards(cards), bid))
      case _ => None
  }

  /** Part 2: the total winnings of the hands and bids of the non-empty
      lines; `None` is the panic of a malformed line. */
  function Part2(input: seq<string>): (r: Option<nat>)
    ensures r.Some? ==> forall k :: 0 <= k < |TrimmedLines(input)| ==> ParseLine(TrimmedLines(input)[k]).Some?
    ensures r.None? ==> exists k :: 0 <= k < |TrimmedLines(input)| && ParseLine(TrimmedLines(input)[k]).None?
  {
    var parsed := MapAll(TrimmedLines(input), ParseLine);
    if parsed.Some? then Some(TotalWinnings(parsed.value)) else None
  }
}
