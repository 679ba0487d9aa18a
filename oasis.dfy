/** problem_9: extrapolating a reading by finite differences. The next value
    of a sequence is its last value plus the next value of its sequence of
    differences, down to a sequence of zeros; part 2 extrapolates the
    reversed sequence, which gives the value before the first. */
module Oasis {
  import opened Wrappers
  import opened Text

  const I64_MIN: int := -0x8000_0000_0000_0000
  const I64_MAX: int := 0x7FFF_FFFF_FFFF_FFFF

  // ------------------------------------------------------------- parsing

  /** Rust's `parse::<i64>`: an optional sign, at least one ASCII digit, and a
      value in the `i64` range; anything else is the `expect` failing. */
  function ParseI64(s: string): (r: Option<int>)
    ensures r.Some? ==> I64_MIN <= r.value <= I64_MAX
    ensures r.Some? && r.value < 0 ==> s != [] && s[0] == '-'
    ensures r.Some? ==> s != [] && s != "+" && s != "-"
  {
    if |s| > 0 && s[0] == '-' then
      var d := s[1..];
      if d != [] && AllDigits(d) && DigitsValue(d) <= -I64_MIN then Some(0 - DigitsValue(d) as int) else None
    else
      match ParseUnsigned(s, I64_MAX + 1)
      case Some(v) => Some(v)
      case None => None
  }

  /** Decimal rendering with a leading '-' for negative values. */
  function IntToString(v: int): string {
    if v < 0 then "-" + NatToString(-v) else NatToString(v)
  }

  /** Every `i64` written in decimal parses back to itself. */
  lemma ParseIntToString(v: int)
    requires I64_MIN <= v <= I64_MAX
    ensures ParseI64(IntToString(v)) == Some(v)
  {
    if v < 0 {
      NatToStringValue(-v);
      assert IntToString(v)[1..] == NatToString(-v);
    } else {
      ParseNatToString(v, I64_MAX + 1);
    }
  }

  /** `parse_ws_list` on one line: the whitespace-separated `i64` values. */
  function ParseLine(ln: string): (r: Option<seq<int>>)
    ensures r.Some? ==> |r.value| == |SplitWhitespace(Trim(ln))|
    ensures r.Some? ==> forall i :: 0 <= i < |r.value| ==> I64_MIN <= r.value[i] <= I64_MAX
  {
    MapAll(SplitWhitespace(Trim(ln)), ParseI64)
  }

  // --------------------------------------------------------- differences

  /** `find_1st_diff`: the difference of each consecutive pair, in order. */
  function Diff(ln: seq<int>): (r: seq<int>)
    ensures |r| == if ln == [] then 0 else |ln| - 1
  {
    if |ln| < 2 then [] else [ln[1] - ln[0]] + Diff(ln[1..])
  }

  /** Element `i` of the differences is `ln[i + 1] - ln[i]`. */
  lemma {:induction false} DiffAt(ln: seq<int>, i: nat)
    requires i < |Diff(ln)|
    ensures Diff(ln)[i] == ln[i + 1] - ln[i]
    decreases |ln|
  {
    if i > 0 {
      var t := ln[1..];
      DiffAt(t, i - 1);
      var j := i - 1;
      assert Diff(ln)[i] == Diff(t)[j];
      assert t[j + 1] == ln[i + 1] && t[j] == ln[i];
    }
  }

  predicate AllZero(ln: seq<int>) {
    forall i :: 0 <= i < |ln| ==> ln[i] == 0
  }

  function Last(ln: seq<int>): int
    requires ln != []
  {
    ln[|ln| - 1]
  }

  /** `handle_line_vec`: 0 for a sequence of zeros (the empty one included),
      otherwise the last value plus the extrapolation of the differences.
      Stopping at the first sequence of zeros gives the same value as the
      full recursion `Next`. */
  function Extrapolate(ln: seq<int>): (r: int)
    ensures r == Next(ln)
    decreases |ln|
  {
    if AllZero(ln) then
      NextOfZeros(ln);
      0
    else Extrapolate(Diff(ln)) + Last(ln)
  }

  /** The same recursion without the shortcut at a sequence of zeros: it goes
      all the way down to the empty sequence. */
  function Next(ln: seq<int>): int
    decreases |ln|
  {
    if ln == [] then 0 else Last(ln) + Next(Diff(ln))
  }

  /** The differences of zeros are zeros, and they extrapolate to zero. */
  lemma {:induction false} NextOfZeros(ln: seq<int>)
    requires AllZero(ln)
    ensures Next(ln) == 0
    decreases |ln|
  {
    if ln != [] {
      forall i | 0 <= i < |Diff(ln)| ensures Diff(ln)[i] == 0 {
        DiffAt(ln, i);
      }
      NextOfZeros(Diff(ln));
    }
  }

  /** The `k`-th differences. */
  function DiffPow(k: nat, s: seq<int>): (r: seq<int>)
    ensures |r| == if |s| <= k then 0 else |s| - k
  {
    if k == 0 then s else Diff(DiffPow(k - 1, s))
  }

  lemma {:induction false} DiffPowShift(k: nat, s: seq<int>)
    ensures DiffPow(k + 1, s) == DiffPow(k, Diff(s))
  {
    if k > 0 {
      DiffPowShift(k - 1, s);
    }
  }

  /** Appending a value appends its difference from the old last value. */
  lemma DiffAppend(s: seq<int>, x: int)
    requires s != []
    ensures Diff(s + [x]) == Diff(s) + [x - Last(s)]
  {
    var l, r := Diff(s + [x]), Diff(s) + [x - Last(s)];
    assert |l| == |r|;
    forall i | 0 <= i < |l| ensures l[i] == r[i] {
      DiffAt(s + [x], i);
      if i < |l| - 1 {
        DiffAt(s, i);
        assert (s + [x])[i + 1] == s[i + 1] && (s + [x])[i] == s[i];
      }
    }
  }

  /** The meaning of the extrapolation: `x` continues `ln` exactly when the
      `|ln|`-th differences of `ln + [x]` (a single value) are zero. */
  lemma {:induction false} NextIff(ln: seq<int>, x: int)
    ensures DiffPow(|ln|, ln + [x]) == [0] <==> x == Next(ln)
    decreases |ln|
  {
    if ln == [] {
      assert ln + [x] == [x];
    } else {
      var n := |ln|;
      DiffPowShift(n - 1, ln + [x]);
      DiffAppend(ln, x);
      NextIff(Diff(ln), x - Last(ln));
    }
  }

  /** `handle_line_vec(ln)` is the unique value whose appending makes the
      top-order difference of the extended sequence vanish. */
  lemma ExtrapolateIff(ln: seq<int>, x: int)
    ensures DiffPow(|ln|, ln + [x]) == [0] <==> x == Extrapolate(ln)
  {
    NextIff(ln, x);
  }

  /** A constant sequence is continued by the same constant. */
  lemma ConstantExtrapolates(m: nat, c: int)
    requires m >= 1
    ensures Extrapolate(seq(m, _ => c)) == c
  {
    ConstantNext(m, c);
  }

  lemma ConstantNext(m: nat, c: int)
    requires m >= 1
    ensures Next(seq(m, _ => c)) == c
  {
    var s := seq(m, _ => c);
    forall i | 0 <= i < |Diff(s)| ensures Diff(s)[i] == 0 {
      DiffAt(s, i);
    }
    NextOfZeros(Diff(s));
  }

  /** Value `i` of the arithmetic progression from `a` with step `d`. */
  function Step(a: int, d: int, i: int): int {
    a + d * i
  }

  /** An arithmetic progression of at least two values is continued by one
      more step. */
  lemma ArithmeticExtrapolates(n: nat, a: int, d: int)
    requires n >= 2
    ensures Extrapolate(seq(n, i => Step(a, d, i))) == a + d * n
  {
    var s := seq(n, i => Step(a, d, i));
    ArithmeticDiff(n, a, d);
    ConstantNext(n - 1, d);
    assert Next(s) == Last(s) + Next(Diff(s));
    assert Last(s) == Step(a, d, n - 1);
    StepNext(a, d, n - 1);
  }

  lemma StepNext(a: int, d: int, i: int)
    ensures Step(a, d, i + 1) == Step(a, d, i) + d
  {
  }

  /** The differences of an arithmetic progression are its constant step. */
  lemma ArithmeticDiff(n: nat, a: int, d: int)
    requires n >= 2
    ensures Diff(seq(n, i => Step(a, d, i))) == seq(n - 1, _ => d)
  {
    var s := seq(n, i => Step(a, d, i));
    var t := Diff(s);
    forall i | 0 <= i < n - 1 ensures t[i] == d {
      DiffAt(s, i);
      StepNext(a, d, i);
    }
  }

  // ------------------------------------------------------------ reversal

  function Reverse(s: seq<int>): (r: seq<int>)
    ensures |r| == |s|
  {
    seq(|s|, i requires 0 <= i < |s| => s[|s| - 1 - i])
  }

  function Negate(s: seq<int>): (r: seq<int>)
    ensures |r| == |s|
  {
    seq(|s|, i requires 0 <= i < |s| => -s[i])
  }

  /** `k` is odd; the number of negations after `k` differencings. */
  function Odd(k: nat): bool {
    if k == 0 then false else !Odd(k - 1)
  }

  function Signed(neg: bool, s: seq<int>): seq<int> {
    if neg then Negate(s) else s
  }

  lemma DiffReverse(s: seq<int>)
    ensures Diff(Reverse(s)) == Reverse(Negate(Diff(s)))
  {
    var n := |s|;
    var l, r := Diff(Reverse(s)), Reverse(Negate(Diff(s)));
    assert |l| == |r|;
    forall i | 0 <= i < |l| ensures l[i] == r[i] {
      DiffAt(Reverse(s), i);
      var j := n - 2 - i;
      DiffAt(s, j);
      assert Reverse(s)[i + 1] == s[j] && Reverse(s)[i] == s[j + 1];
      assert r[i] == Negate(Diff(s))[j];
    }
  }

  lemma DiffNegate(s: seq<int>)
    ensures Diff(Negate(s)) == Negate(Diff(s))
  {
    var l, r := Diff(Negate(s)), Negate(Diff(s));
    forall i | 0 <= i < |l| ensures l[i] == r[i] {
      DiffAt(Negate(s), i);
      DiffAt(s, i);
    }
  }

  lemma NegateTwice(s: seq<int>)
    ensures Negate(Negate(s)) == s
  {
  }

  /** Differencing a reversed sequence gives the reversed differences, negated
      once per order. */
  lemma {:induction false} DiffPowReverse(k: nat, s: seq<int>)
    ensures DiffPow(k, Reverse(s)) == Reverse(Signed(Odd(k), DiffPow(k, s)))
  {
    if k > 0 {
      var t := DiffPow(k - 1, s);
      var odd := Odd(k - 1);
      DiffPowReverse(k - 1, s);
      assert DiffPow(k, Reverse(s)) == Diff(Reverse(Signed(odd, t)));
      assert DiffPow(k, s) == Diff(t);
      DiffReverse(Signed(odd, t));
      if odd {
        DiffNegate(t);
        NegateTwice(Diff(t));
        assert Negate(Diff(Signed(odd, t))) == Diff(t);
      } else {
        assert Signed(odd, t) == t;
      }
    }
  }

  /** A single value is zero after any number of negations and reversals. */
  lemma SingleSignedZero(neg: bool, t: seq<int>)
    requires |t| == 1
    ensures Reverse(Signed(neg, t)) == [0] <==> t == [0]
  {
    assert Reverse(Signed(neg, t)) == Signed(neg, t);
    assert Negate(t) == [-t[0]];
  }

  /** Part 2's value for a line: the forward extrapolation of the reversed
      line. */
  function Backwards(ln: seq<int>): (r: int)
    ensures r == Next(Reverse(ln))
  {
    Extrapolate(Reverse(ln))
  }

  /** The part 2 value is the unique value whose prepending makes the
      top-order difference of the extended sequence vanish, so it is the value
      before the first. */
  lemma BackwardsIff(ln: seq<int>, x: int)
    ensures DiffPow(|ln|, [x] + ln) == [0] <==> x == Backwards(ln)
  {
    var n := |ln|;
    var s := [x] + ln;
    ReverseCons(x, ln);
    ExtrapolateIff(Reverse(ln), x);
    DiffPowReverse(n, s);
    SingleSignedZero(Odd(n), DiffPow(n, s));
  }

  lemma ReverseCons(x: int, ln: seq<int>)
    ensures Reverse([x] + ln) == Reverse(ln) + [x]
  {
  }

  // -------------------------------------------------------------- answers

  function Sum(vals: seq<int>): int {
    if vals == [] then 0 else vals[0] + Sum(vals[1..])
  }

  /** The next value of every line, in order. */
  function NextValues(lines: seq<seq<int>>): seq<int> {
    seq(|lines|, i requires 0 <= i < |lines| => Extrapolate(lines[i]))
  }

  /** The previous value of every line, in order. */
  function PrevValues(lines: seq<seq<int>>): seq<int> {
    seq(|lines|, i requires 0 <= i < |lines| => Backwards(lines[i]))
  }

  /** Part 1: the sum over the lines of their next values. */
  function Part1(lines: seq<seq<int>>): (r: int)
    ensures r == Sum(seq(|lines|, i requires 0 <= i < |lines| => Next(lines[i])))
  {
    var vals := NextValues(lines);
    assert vals == seq(|lines|, i requires 0 <= i < |lines| => Next(lines[i]));
    Sum(vals)
  }

  /** Part 2: the sum over the lines of their previous values. */
  function Part2(lines: seq<seq<int>>): (r: int)
    ensures r == Sum(seq(|lines|, i requires 0 <= i < |lines| => Next(Reverse(lines[i]))))
  {
    var vals := PrevValues(lines);
    assert vals == seq(|lines|, i requires 0 <= i < |lines| => Next(Reverse(lines[i])));
    Sum(vals)
  }

  /** Both answers add up over the lines: the sum for some lines followed by
      more lines is the sum of the two parts. */
  lemma PartsAdditive(a: seq<seq<int>>, b: seq<seq<int>>)
    ensures Part1(a + b) == Part1(a) + Part1(b)
    ensures Part2(a + b) == Part2(a) + Part2(b)
  {
    assert NextValues(a + b) == NextValues(a) + NextValues(b);
    SumAppend(NextValues(a), NextValues(b));
    assert PrevValues(a + b) == PrevValues(a) + PrevValues(b);
    SumAppend(PrevValues(a), PrevValues(b));
  }

  lemma {:induction false} SumAppend(x: seq<int>, y: seq<int>)
    ensures Sum(x + y) == Sum(x) + Sum(y)
  {
    if x != [] {
      assert (x + y)[1..] == x[1..] + y;
      SumAppend(x[1..], y);
    } else {
      assert x + y == y;
    }
  }
}
