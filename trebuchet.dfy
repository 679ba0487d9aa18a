/** problem_1: calibration values. Part 1 reads the first and the last digit
    of a line as a two-digit number; part 2 also accepts the spelled-out
    words "one" to "nine", taking the value that starts first and the one
    that ends last. */
module Trebuchet {
  import opened Wrappers
  import opened Text

  // ----------------------------------------------------------------- part 1

  /** Index of the first digit of `ln` at or after `i`. */
  function FirstDigitFrom(ln: string, i: nat): (r: Option<nat>)
    requires i <= |ln|
    ensures r.Some? ==> i <= r.value < |ln| && IsDigit(ln[r.value])
    ensures forall j :: i <= j < |ln| && (r.None? || j < r.value) ==> !IsDigit(ln[j])
    decreases |ln| - i
  {
    if i == |ln| then None
    else if IsDigit(ln[i]) then Some(i)
    else FirstDigitFrom(ln, i + 1)
  }

  /** Index of the last digit of `ln` before `i`. */
  function LastDigitBelow(ln: string, i: nat): (r: Option<nat>)
    requires i <= |ln|
    ensures r.Some? ==> r.value < i && IsDigit(ln[r.value])
    ensures forall j :: 0 <= j < i && (r.None? || r.value < j) ==> !IsDigit(ln[j])
  {
    if i == 0 then None
    else if IsDigit(ln[i - 1]) then Some(i - 1)
    else LastDigitBelow(ln, i - 1)
  }

  /** The part 1 value of a line: the first and the last of its digits read
      as a two-digit decimal number; a line without digits panics
      (`None`). */
  function LineValue1(ln: string): (r: Option<nat>)
    ensures r.Some? ==> r.value <= 99
  {
    match (FirstDigitFrom(ln, 0), LastDigitBelow(ln, |ln|))
    case (Some(i), Some(j)) => Some(10 * DigitValue(ln[i]) + DigitValue(ln[j]))
    case _ => None
  }

  /** `i` holds the first digit of `ln` and `j` the last one. */
  predicate FirstAndLastDigit(ln: string, i: int, j: int) {
    0 <= i <= j < |ln| && IsDigit(ln[i]) && IsDigit(ln[j])
    && (forall k :: 0 <= k < i ==> !IsDigit(ln[k]))
    && (forall k :: j < k < |ln| ==> !IsDigit(ln[k]))
  }

  /** The part 1 value is read from the first and the last digit of the
      line; without digits the line has no value. */
  lemma LineValue1Spec(ln: string)
    ensures LineValue1(ln).None? <==> forall k :: 0 <= k < |ln| ==> !IsDigit(ln[k])
    ensures LineValue1(ln).Some? ==>
      exists i, j :: FirstAndLastDigit(ln, i, j)
        && LineValue1(ln).value == 10 * DigitValue(ln[i]) + DigitValue(ln[j])
  {
    var f, l := FirstDigitFrom(ln, 0), LastDigitBelow(ln, |ln|);
    if f.Some? {
      assert l.Some?;
      assert FirstAndLastDigit(ln, f.value, l.value);
    } else if l.Some? {
      assert false;
    }
  }

  // ----------------------------------------------------------------- part 2

  /** `NUM_WORDS`: entry `k` spells `k` for 1 to 9; entry 0 is never
      searched. */
  const NUM_WORDS: seq<string> := ["", "one", "two", "three", "four", "five", "six", "seven", "eight", "nine"]

  /** `w` occurs in `s` at index `i`. */
  predicate WordAt(s: string, i: int, w: string) {
    0 <= i && i + |w| <= |s| && s[i..i + |w|] == w
  }

  /** `str::find` for a non-empty pattern: the first index of an occurrence. */
  function Find(s: string, w: string): (r: Option<nat>)
    ensures r.Some? ==> WordAt(s, r.value, w)
    ensures forall j :: 0 <= j && (r.None? || j < r.value) ==> !WordAt(s, j, w)
  {
    FindFrom(s, w, 0)
  }

  function FindFrom(s: string, w: string, i: nat): (r: Option<nat>)
    ensures r.Some? ==> i <= r.value && WordAt(s, r.value, w)
    ensures forall j :: i <= j && (r.None? || j < r.value) ==> !WordAt(s, j, w)
    decreases |s| - i
  {
    if i + |w| > |s| then None
    else if s[i..i + |w|] == w then Some(i)
    else FindFrom(s, w, i + 1)
  }

  /** `str::rfind`: the last index of an occurrence. */
  function RFind(s: string, w: string): (r: Option<nat>)
    ensures r.Some? ==> WordAt(s, r.value, w)
    ensures forall j :: (r.None? || r.value < j) ==> !WordAt(s, j, w)
  {
    if |w| > |s| then None else RFindAtMost(s, w, |s| - |w|)
  }

  function RFindAtMost(s: string, w: string, i: nat): (r: Option<nat>)
    requires i + |w| <= |s|
    ensures r.Some? ==> r.value <= i && WordAt(s, r.value, w)
    ensures forall j :: j <= i && (r.None? || r.value < j) ==> !WordAt(s, j, w)
  {
    if s[i..i + |w|] == w then Some(i)
    else if i == 0 then None
    else RFindAtMost(s, w, i - 1)
  }

  /** A candidate value with its key: the index it starts at (first) or ends
      at (last). */
  datatype Cand = Cand(key: int, value: nat)

  /** `filter_map(|x| x)`: the present candidates, in order. */
  function Present(opts: seq<Option<Cand>>): seq<Cand> {
    if opts == [] then []
    else (if opts[0].Some? then [opts[0].value] else []) + Present(opts[1..])
  }

  /** The present candidates are exactly the values of the `Some`s. */
  lemma {:induction false} PresentMembers(opts: seq<Option<Cand>>)
    ensures forall c :: c in Present(opts) <==> Some(c) in opts
  {
    if opts != [] {
      PresentMembers(opts[1..]);
      assert opts == [opts[0]] + opts[1..];
    }
  }

  /** `min_by_key`: the first candidate of least key. */
  function MinByKey(cs: seq<Cand>): Cand
    requires cs != []
  {
    if |cs| == 1 then cs[0]
    else
      var m := MinByKey(cs[1..]);
      if m.key < cs[0].key then m else cs[0]
  }

  /** `max_by_key`: the last candidate of greatest key. */
  function MaxByKey(cs: seq<Cand>): Cand
    requires cs != []
  {
    if |cs| == 1 then cs[0]
    else
      var m := MaxByKey(cs[1..]);
      if m.key >= cs[0].key then m else cs[0]
  }

  /** The minimum is a candidate, and no candidate has a smaller key. */
  lemma {:induction false} MinByKeySpec(cs: seq<Cand>)
    requires cs != []
    ensures MinByKey(cs) in cs
    ensures forall c :: c in cs ==> MinByKey(cs).key <= c.key
  {
    if |cs| > 1 {
      MinByKeySpec(cs[1..]);
      assert cs == [cs[0]] + cs[1..];
    }
  }

  /** The maximum is a candidate, and no candidate has a greater key. */
  lemma {:induction false} MaxByKeySpec(cs: seq<Cand>)
    requires cs != []
    ensures MaxByKey(cs) in cs
    ensures forall c :: c in cs ==> c.key <= MaxByKey(cs).key
  {
    if |cs| > 1 {
      MaxByKeySpec(cs[1..]);
      assert cs == [cs[0]] + cs[1..];
    }
  }

  /** A value token starts at `p`: a digit (0 to 9) or a number word
      (1 to 9). */
  predicate TokenAt(ln: string, p: int, v: nat) {
    (0 <= p < |ln| && IsDigit(ln[p]) && DigitValue(ln[p]) == v)
    || (1 <= v <= 9 && WordAt(ln, p, NUM_WORDS[v]))
  }

  /** Where a word at `i` ends: `i + len - 1`. */
  function WordEnd(i: int, v: nat): int
    requires 1 <= v <= 9
  {
    i + |NUM_WORDS[v]| - 1
  }

  /** Where a word ending at `e` starts. */
  function WordStart(e: int, v: nat): int
    requires 1 <= v <= 9
  {
    e + 1 - |NUM_WORDS[v]|
  }

  lemma StartOfEnd(i: int, v: nat)
    requires 1 <= v <= 9
    ensures WordStart(WordEnd(i, v), v) == i
  {
  }

  /** A value token ends at `e`. */
  predicate TokenEndsAt(ln: string, e: int, v: nat) {
    (0 <= e < |ln| && IsDigit(ln[e]) && DigitValue(ln[e]) == v)
    || (1 <= v <= 9 && WordAt(ln, WordStart(e, v), NUM_WORDS[v]))
  }

  function WordCand(found: Option<nat>, v: nat): (r: Option<Cand>)
    requires 1 <= v <= 9
  {
    match found
    case None => None
    case Some(i) => Some(Cand(i, v))
  }

  function WordEndCand(found: Option<nat>, v: nat): (r: Option<Cand>)
    requires 1 <= v <= 9
  {
    match found
    case None => None
    case Some(i) => Some(Cand(WordEnd(i, v), v))
  }

  function DigitCand(found: Option<nat>, ln: string): (r: Option<Cand>)
    requires found.Some? ==> found.value < |ln| && IsDigit(ln[found.value])
  {
    match found
    case None => None
    case Some(i) => Some(Cand(i, DigitValue(ln[i])))
  }

  /** The first occurrence of each of the words `v` to 9, in order. */
  function WordCands(ln: string, v: nat): seq<Option<Cand>>
    requires 1 <= v <= 10
    decreases 10 - v
  {
    if v == 10 then [] else [WordCand(Find(ln, NUM_WORDS[v]), v)] + WordCands(ln, v + 1)
  }

  /** Where the last occurrence of each of the words `v` to 9 ends. */
  function WordEndCands(ln: string, v: nat): seq<Option<Cand>>
    requires 1 <= v <= 10
    decreases 10 - v
  {
    if v == 10 then [] else [WordEndCand(RFind(ln, NUM_WORDS[v]), v)] + WordEndCands(ln, v + 1)
  }

  /** The candidates for the first value: the first occurrence of each word,
      then the first digit. */
  function FirstCands(ln: string): seq<Option<Cand>> {
    WordCands(ln, 1) + [DigitCand(FirstDigitFrom(ln, 0), ln)]
  }

  /** The candidates for the last value: where the last occurrence of each
      word ends, then the last digit. */
  function LastCands(ln: string): seq<Option<Cand>> {
    WordEndCands(ln, 1) + [DigitCand(LastDigitBelow(ln, |ln|), ln)]
  }

  /** A word candidate is the first occurrence of its word. */
  lemma {:induction false} WordCandsMember(ln: string, v: nat, c: Cand)
    requires 1 <= v <= 10 && Some(c) in WordCands(ln, v)
    ensures v <= c.value <= 9 && Find(ln, NUM_WORDS[c.value]) == Some(c.key)
    decreases 10 - v
  {
    if Some(c) != WordCand(Find(ln, NUM_WORDS[v]), v) {
      WordCandsMember(ln, v + 1, c);
    }
  }

  /** Each word that occurs has its candidate. */
  lemma {:induction false} WordCandsHas(ln: string, v: nat, u: nat)
    requires 1 <= v <= u <= 9 && Find(ln, NUM_WORDS[u]).Some?
    ensures Some(Cand(Find(ln, NUM_WORDS[u]).value, u)) in WordCands(ln, v)
    decreases 10 - v
  {
    if v < u {
      WordCandsHas(ln, v + 1, u);
    }
  }

  /** A word-end candidate is where the last occurrence of its word ends. */
  lemma {:induction false} WordEndCandsMember(ln: string, v: nat, c: Cand)
    requires 1 <= v <= 10 && Some(c) in WordEndCands(ln, v)
    ensures v <= c.value <= 9 && RFind(ln, NUM_WORDS[c.value]).Some?
    ensures v <= c.value <= 9 && c.key == WordEnd(RFind(ln, NUM_WORDS[c.value]).value, c.value)
    decreases 10 - v
  {
    if Some(c) != WordEndCand(RFind(ln, NUM_WORDS[v]), v) {
      WordEndCandsMember(ln, v + 1, c);
    }
  }

  /** Each word that occurs has its word-end candidate. */
  lemma {:induction false} WordEndCandsHas(ln: string, v: nat, u: nat)
    requires 1 <= v <= u <= 9 && RFind(ln, NUM_WORDS[u]).Some?
    ensures Some(Cand(WordEnd(RFind(ln, NUM_WORDS[u]).value, u), u)) in WordEndCands(ln, v)
    decreases 10 - v
  {
    if v < u {
      WordEndCandsHas(ln, v + 1, u);
    }
  }

  /** The value of the present candidate of least key. */
  function Earliest(opts: seq<Option<Cand>>): Option<nat> {
    var cs := Present(opts);
    if cs == [] then None else Some(MinByKey(cs).value)
  }

  /** The value of the present candidate of greatest key. */
  function Latest(opts: seq<Option<Cand>>): Option<nat> {
    var cs := Present(opts);
    if cs == [] then None else Some(MaxByKey(cs).value)
  }

  /** The value of the earliest token; it is a single digit. */
  function FirstValue(ln: string): (r: Option<nat>)
    ensures r.Some? ==> r.value <= 9
  {
    var cs := Present(FirstCands(ln));
    PresentMembers(FirstCands(ln));
    assert cs != [] ==> MinByKey(cs).value <= 9 by {
      if cs != [] {
        MinByKeySpec(cs);
        FirstCandIsToken(ln, MinByKey(cs));
      }
    }
    Earliest(FirstCands(ln))
  }

  /** The value of the token that ends latest; it is a single digit. */
  function LastValue(ln: string): (r: Option<nat>)
    ensures r.Some? ==> r.value <= 9
  {
    var cs := Present(LastCands(ln));
    PresentMembers(LastCands(ln));
    assert cs != [] ==> MaxByKey(cs).value <= 9 by {
      if cs != [] {
        MaxByKeySpec(cs);
        LastCandIsToken(ln, MaxByKey(cs));
      }
    }
    Latest(LastCands(ln))
  }

  /** The part 2 value of a line; `None` is the "Expected first value"
      panic. */
  function LineValue2(ln: string): (r: Option<nat>)
    ensures r.Some? <==> FirstValue(ln).Some? && LastValue(ln).Some?
    ensures r.Some? ==> r.value == 10 * FirstValue(ln).value + LastValue(ln).value && r.value <= 99
  {
    match (FirstValue(ln), LastValue(ln))
    case (Some(f), Some(l)) => Some(10 * f + l)
    case _ => None
  }

  /** Every present first candidate is a token at its key. */
  lemma FirstCandIsToken(ln: string, c: Cand)
    requires Some(c) in FirstCands(ln)
    ensures TokenAt(ln, c.key, c.value)
  {
    if Some(c) in WordCands(ln, 1) {
      WordCandsMember(ln, 1, c);
    }
  }

  /** Every token has a first candidate at or before it. */
  lemma TokenHasFirstCand(ln: string, q: int, u: nat)
    requires TokenAt(ln, q, u)
    ensures exists c :: Some(c) in FirstCands(ln) && c.key <= q
  {
    var opts := FirstCands(ln);
    if 0 <= q < |ln| && IsDigit(ln[q]) && DigitValue(ln[q]) == u {
      var f := FirstDigitFrom(ln, 0);
      assert opts[|opts| - 1] == DigitCand(f, ln);
      assert Some(Cand(f.value, DigitValue(ln[f.value]))) in opts;
    } else {
      var f := Find(ln, NUM_WORDS[u]);
      WordCandsHas(ln, 1, u);
      assert Some(Cand(f.value, u)) in opts;
    }
  }

  /** The first value is a token that starts at `p`, and no token starts
      before `p`; a line without tokens has no first value. */
  lemma FirstValueSpec(ln: string)
    ensures FirstValue(ln).None? <==> forall p: int, v: nat :: !TokenAt(ln, p, v)
    ensures FirstValue(ln).Some? ==>
      exists p :: TokenAt(ln, p, FirstValue(ln).value)
        && forall q: int, u: nat :: q < p ==> !TokenAt(ln, q, u)
  {
    var cs := Present(FirstCands(ln));
    PresentMembers(FirstCands(ln));
    if cs == [] {
      forall p: int, v: nat ensures !TokenAt(ln, p, v) {
        if TokenAt(ln, p, v) {
          TokenHasFirstCand(ln, p, v);
        }
      }
    } else {
      var m := MinByKey(cs);
      MinByKeySpec(cs);
      FirstCandIsToken(ln, m);
      forall q: int, u: nat | q < m.key ensures !TokenAt(ln, q, u) {
        if TokenAt(ln, q, u) {
          TokenHasFirstCand(ln, q, u);
        }
      }
    }
  }

  /** Every present last candidate is a token ending at its key. */
  lemma LastCandIsToken(ln: string, c: Cand)
    requires Some(c) in LastCands(ln)
    ensures TokenEndsAt(ln, c.key, c.value)
  {
    if Some(c) in WordEndCands(ln, 1) {
      WordEndCandsMember(ln, 1, c);
      StartOfEnd(RFind(ln, NUM_WORDS[c.value]).value, c.value);
    }
  }

  /** Every token has a last candidate at or after its end. */
  lemma TokenHasLastCand(ln: string, e: int, u: nat)
    requires TokenEndsAt(ln, e, u)
    ensures exists c :: Some(c) in LastCands(ln) && e <= c.key
  {
    var opts := LastCands(ln);
    if 0 <= e < |ln| && IsDigit(ln[e]) && DigitValue(ln[e]) == u {
      var f := LastDigitBelow(ln, |ln|);
      assert opts[|opts| - 1] == DigitCand(f, ln);
      assert Some(Cand(f.value, DigitValue(ln[f.value]))) in opts;
    } else {
      var i := WordStart(e, u);
      assert WordEnd(i, u) == e;
      var f := RFind(ln, NUM_WORDS[u]);
      WordEndCandsHas(ln, 1, u);
      assert Some(Cand(WordEnd(f.value, u), u)) in opts;
      WordEndMonotone(i, f.value, u);
    }
  }

  lemma WordEndMonotone(i: int, j: int, v: nat)
    requires 1 <= v <= 9 && i <= j
    ensures WordEnd(i, v) <= WordEnd(j, v)
  {
  }

  /** The last value is a token that ends at `e`, and no token ends after
      `e`; a line without tokens has no last value. */
  lemma LastValueSpec(ln: string)
    ensures LastValue(ln).None? <==> forall e: int, v: nat :: !TokenEndsAt(ln, e, v)
    ensures LastValue(ln).Some? ==>
      exists e :: TokenEndsAt(ln, e, LastValue(ln).value)
        && forall q: int, u: nat :: e < q ==> !TokenEndsAt(ln, q, u)
  {
    var cs := Present(LastCands(ln));
    PresentMembers(LastCands(ln));
    if cs == [] {
      forall e: int, v: nat ensures !TokenEndsAt(ln, e, v) {
        if TokenEndsAt(ln, e, v) {
          TokenHasLastCand(ln, e, v);
        }
      }
    } else {
      var m := MaxByKey(cs);
      MaxByKeySpec(cs);
      LastCandIsToken(ln, m);
      forall q: int, u: nat | m.key < q ensures !TokenEndsAt(ln, q, u) {
        if TokenEndsAt(ln, q, u) {
          TokenHasLastCand(ln, q, u);
        }
      }
    }
  }

  /** A line has a part 2 value exactly when it holds a digit or a number
      word. */
  lemma LineValue2Defined(ln: string)
    ensures LineValue2(ln).Some? <==> exists p: int, v: nat :: TokenAt(ln, p, v)
  {
    FirstValueSpec(ln);
    LastValueSpec(ln);
    if p: int, v: nat :| TokenAt(ln, p, v) {
      if 0 <= p < |ln| && IsDigit(ln[p]) && DigitValue(ln[p]) == v {
        assert TokenEndsAt(ln, p, v);
      } else {
        StartOfEnd(p, v);
        assert TokenEndsAt(ln, WordEnd(p, v), v);
      }
    }
  }

  /** No number word occurs in the line. */
  predicate NoWords(ln: string) {
    forall p: int, v: nat :: 0 <= p <= |ln| && 1 <= v <= 9 ==> !WordAt(ln, p, NUM_WORDS[v])
  }

  /** Without number words the first value is the first digit. */
  lemma NoWordsFirst(ln: string)
    requires NoWords(ln) && FirstDigitFrom(ln, 0).Some?
    ensures FirstValue(ln) == Some(DigitValue(ln[FirstDigitFrom(ln, 0).value]))
  {
    var i := FirstDigitFrom(ln, 0).value;
    FirstValueSpec(ln);
    assert TokenAt(ln, i, DigitValue(ln[i]));
    var fv := FirstValue(ln).value;
    var p :| TokenAt(ln, p, fv) && forall q: int, u: nat :: q < p ==> !TokenAt(ln, q, u);
    NoWordStartsAt(ln, p, fv);
    assert !(i < p);
    assert p == i;
  }

  /** Without number words the last value is the last digit. */
  lemma NoWordsLast(ln: string)
    requires NoWords(ln) && LastDigitBelow(ln, |ln|).Some?
    ensures LastValue(ln) == Some(DigitValue(ln[LastDigitBelow(ln, |ln|).value]))
  {
    var j := LastDigitBelow(ln, |ln|).value;
    LastValueSpec(ln);
    assert TokenEndsAt(ln, j, DigitValue(ln[j]));
    var lv := LastValue(ln).value;
    var e :| TokenEndsAt(ln, e, lv) && forall q: int, u: nat :: e < q ==> !TokenEndsAt(ln, q, u);
    NoWordEndsAt(ln, e, lv);
    assert !(j < e);
    assert e == j;
  }

  /** Without number words a token ending at `e` is the digit at `e`. */
  lemma NoWordEndsAt(ln: string, e: int, v: nat)
    requires NoWords(ln) && TokenEndsAt(ln, e, v)
    ensures 0 <= e < |ln| && IsDigit(ln[e]) && DigitValue(ln[e]) == v
  {
    if 1 <= v <= 9 && WordAt(ln, WordStart(e, v), NUM_WORDS[v]) {
      assert false;
    }
  }

  /** Without number words a token starting at `p` is the digit at `p`. */
  lemma NoWordStartsAt(ln: string, p: int, v: nat)
    requires NoWords(ln) && TokenAt(ln, p, v)
    ensures 0 <= p < |ln| && IsDigit(ln[p]) && DigitValue(ln[p]) == v
  {
    if 1 <= v <= 9 && WordAt(ln, p, NUM_WORDS[v]) {
      assert false;
    }
  }

  /** On a line without number words both parts give the same value. */
  lemma NoWordsAgree(ln: string)
    requires NoWords(ln)
    ensures LineValue2(ln) == LineValue1(ln)
  {
    var f, l := FirstDigitFrom(ln, 0), LastDigitBelow(ln, |ln|);
    if f.Some? {
      assert l.Some?;
      NoWordsFirst(ln);
      NoWordsLast(ln);
    } else {
      NoTokens(ln);
    }
  }

  /** A line without digits or number words has no part 2 value. */
  lemma NoTokens(ln: string)
    requires NoWords(ln) && FirstDigitFrom(ln, 0).None?
    ensures LineValue2(ln).None?
  {
    FirstValueSpec(ln);
    forall p: int, v: nat ensures !TokenAt(ln, p, v) {
      if TokenAt(ln, p, v) {
        NoWordStartsAt(ln, p, v);
      }
    }
  }

  // ---------------------------------------------------------------- sums

  function Sum(vals: seq<nat>): nat {
    if vals == [] then 0 else vals[0] + Sum(vals[1..])
  }

  /** A sum of values that are each at most `m` is at most `m` per value. */
  lemma {:induction false} SumBound(vals: seq<nat>, m: nat)
    requires forall i :: 0 <= i < |vals| ==> vals[i] <= m
    ensures Sum(vals) <= m * |vals|
  {
    if vals != [] {
      SumBound(vals[1..], m);
      assert m * |vals| == m + m * |vals[1..]|;
    }
  }

  /** Part 1: the sum of the line values; `None` when a line has none. */
  function Part1(lines: seq<string>): (r: Option<nat>)
    ensures r.Some? <==> forall i :: 0 <= i < |lines| ==> LineValue1(lines[i]).Some?
    ensures r.Some? ==> r.value <= 99 * |lines|
  {
    match MapAll(lines, LineValue1)
    case None => None
    case Some(vals) =>
      SumBound(vals, 99);
      Some(Sum(vals))
  }

  /** Part 2: the same with the part 2 line values. */
  function Part2(lines: seq<string>): (r: Option<nat>)
    ensures r.Some? <==> forall i :: 0 <= i < |lines| ==> LineValue2(lines[i]).Some?
    ensures r.Some? ==> r.value <= 99 * |lines|
  {
    match MapAll(lines, LineValue2)
    case None => None
    case Some(vals) =>
      SumBound(vals, 99);
      Some(Sum(vals))
  }

  /** When no line holds a number word, both parts give the same answer. */
  lemma NoWordsPartsAgree(lines: seq<string>)
    requires forall i :: 0 <= i < |lines| ==> NoWords(lines[i])
    ensures Part2(lines) == Part1(lines)
  {
    forall i | 0 <= i < |lines| ensures LineValue2(lines[i]) == LineValue1(lines[i]) {
      NoWordsAgree(lines[i]);
    }
    var a, b := MapAll(lines, LineValue1), MapAll(lines, LineValue2);
    if a.Some? {
      assert b.Some? && |b.value| == |a.value|;
      assert b.value == a.value by {
        forall i | 0 <= i < |lines| ensures b.value[i] == a.value[i] {
          assert LineValue2(lines[i]) == Some(b.value[i]) && LineValue1(lines[i]) == Some(a.value[i]);
        }
      }
    }
  }
}
