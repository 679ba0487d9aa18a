/** The small part of Rust's `str` API the solvers use: trimming, splitting,
    prefix stripping and unsigned-integer parsing, on `seq<char>` with ASCII
    whitespace and ASCII digits. */
module Text {
  import opened Wrappers

  const U32_LIMIT: nat := 0x1_0000_0000
  const U64_LIMIT: nat := 0x1_0000_0000_0000_0000

  /** ASCII whitespace (what `char::is_whitespace` accepts below U+0080). */
  predicate IsSpace(c: char) {
    c == ' ' || c == '\t' || c == '\n' || c == '\r' || c == '\U{000B}' || c == '\U{000C}'
  }

  predicate IsDigit(c: char) {
    '0' <= c <= '9'
  }

  function DigitValue(c: char): (d: nat)
    requires IsDigit(c)
    ensures d < 10
  {
    (c as int) - ('0' as int)
  }

  function DigitChar(d: nat): (c: char)
    requires d < 10
    ensures IsDigit(c) && DigitValue(c) == d
  {
    (('0' as int) + d) as char
  }

  predicate AllDigits(s: string) {
    forall i :: 0 <= i < |s| ==> IsDigit(s[i])
  }

  predicate HasSpace(s: string) {
    exists i :: 0 <= i < |s| && IsSpace(s[i])
  }

  // ---------------------------------------------------------------- trimming

  /** Number of whitespace characters `s` starts with. */
  function LeadingSpaces(s: string): (n: nat)
    ensures n <= |s|
    ensures forall k :: 0 <= k < n ==> IsSpace(s[k])
    ensures n < |s| ==> !IsSpace(s[n])
  {
    if s != [] && IsSpace(s[0]) then LeadingSpaces(s[1..]) + 1 else 0
  }

  /** Length of `s` without the whitespace it ends with. */
  function TrailingStart(s: string): (n: nat)
    ensures n <= |s|
    ensures forall k :: n <= k < |s| ==> IsSpace(s[k])
    ensures n > 0 ==> !IsSpace(s[n - 1])
  {
    if s != [] && IsSpace(s[|s| - 1]) then TrailingStart(s[..|s| - 1]) else |s|
  }

  /** `str::trim_start`: drops the leading whitespace and nothing else. */
  function TrimStart(s: string): (r: string)
    ensures |r| <= |s| && r == s[|s| - |r|..]
    ensures forall k :: 0 <= k < |s| - |r| ==> IsSpace(s[k])
    ensures r != [] ==> !IsSpace(r[0])
  {
    s[LeadingSpaces(s)..]
  }

  /** `str::trim_end`: drops the trailing whitespace and nothing else. */
  function TrimEnd(s: string): (r: string)
    ensures |r| <= |s| && r == s[..|r|]
    ensures forall k :: |r| <= k < |s| ==> IsSpace(s[k])
    ensures r != [] ==> !IsSpace(r[|r| - 1])
  {
    s[..TrailingStart(s)]
  }

  /** `r` is `s` with some whitespace removed from each end. */
  ghost predicate IsTrimmedSlice(s: string, r: string, i: nat) {
    && i + |r| <= |s|
    && r == s[i..i + |r|]
    && (forall k :: 0 <= k < i ==> IsSpace(s[k]))
    && (forall k :: i + |r| <= k < |s| ==> IsSpace(s[k]))
  }

  /** `str::trim`: the slice of `s` between its leading and trailing
      whitespace; the result neither starts nor ends with whitespace. */
  function Trim(s: string): (r: string)
    ensures IsTrimmedSlice(s, r, |s| - |TrimStart(s)|)
    ensures r != [] ==> !IsSpace(r[0]) && !IsSpace(r[|r| - 1])
  {
    var t := TrimStart(s);
    var r := TrimEnd(t);
    assert r == s[|s| - |t|..][..|r|];
    r
  }

  lemma {:induction false} TrimOfTrimmed(s: string)
    requires s != [] ==> !IsSpace(s[0]) && !IsSpace(s[|s| - 1])
    ensures Trim(s) == s
  {
    assert TrimStart(s) == s;
    assert TrimEnd(s) == s;
  }

  /** A trimmed text with one space after it trims back to itself. */
  lemma TrimPadRight(t: string)
    requires t != [] ==> !IsSpace(t[0]) && !IsSpace(t[|t| - 1])
    ensures Trim(t + " ") == t
  {
    var s := t + " ";
    if t != [] {
      assert LeadingSpaces(s) == 0;
      assert TrimStart(s) == s;
      assert s[..|s| - 1] == t;
      assert TrailingStart(s) == TrailingStart(t);
      assert TrimEnd(t) == t;
    } else {
      assert LeadingSpaces(s) == 1 + LeadingSpaces(s[1..]);
    }
  }

  /** A trimmed text with one space before it trims back to itself. */
  lemma TrimPadLeft(t: string)
    requires t != [] ==> !IsSpace(t[0]) && !IsSpace(t[|t| - 1])
    ensures Trim(" " + t) == t
  {
    var s := " " + t;
    assert s[1..] == t;
    assert LeadingSpaces(s) == 1 + LeadingSpaces(t);
    assert TrimStart(s) == t;
    TrimOfTrimmed(t);
  }

  /** `lines().map(trim).filter(|x| x.len() > 0)`: every line trimmed,
      the empty ones dropped. */
  function TrimmedLines(input: seq<string>): (r: seq<string>)
    ensures forall k :: 0 <= k < |r| ==> IsTrimmedLine(r[k])
  {
    if input == [] then []
    else if Trim(input[0]) == [] then TrimmedLines(input[1..])
    else [Trim(input[0])] + TrimmedLines(input[1..])
  }

  /** A non-empty line without surrounding whitespace. */
  predicate IsTrimmedLine(s: string) {
    s != [] && !IsSpace(s[0]) && !IsSpace(s[|s| - 1])
  }

  // ------------------------------------------------------------- searching

  /** Index of the first occurrence of `c` in `s`. */
  function IndexOf(s: string, c: char): (r: Option<nat>)
    ensures r.None? <==> c !in s
    ensures r.Some? ==> r.value < |s| && s[r.value] == c && c !in s[..r.value]
  {
    if s == [] then None
    else if s[0] == c then Some(0)
    else match IndexOf(s[1..], c)
      case None => None
      case Some(i) => assert s[1..][..i] == s[1..i + 1]; Some(i + 1)
  }

  /** `str::split_once(c)`: the parts before and after the first `c`. */
  function SplitOnce(s: string, c: char): (r: Option<(string, string)>)
    ensures r.None? <==> c !in s
    ensures r.Some? ==> s == r.value.0 + [c] + r.value.1 && c !in r.value.0
  {
    match IndexOf(s, c)
    case None => None
    case Some(i) =>
      assert s == s[..i] + [c] + s[i + 1..];
      Some((s[..i], s[i + 1..]))
  }

  /** The pieces joined back together with `c` between each two. */
  function Join(pieces: seq<string>, c: char): string
    requires |pieces| > 0
  {
    if |pieces| == 1 then pieces[0] else pieces[0] + [c] + Join(pieces[1..], c)
  }

  /** `str::split(c)`: at least one piece, no piece holds `c`, and joining the
      pieces with `c` gives back `s`. */
  function Split(s: string, c: char): (r: seq<string>)
    ensures |r| > 0
    ensures forall k :: 0 <= k < |r| ==> c !in r[k]
    ensures Join(r, c) == s
    decreases |s|
  {
    match SplitOnce(s, c)
    case None => [s]
    case Some((a, b)) =>
      var rest := Split(b, c);
      assert ([a] + rest)[1..] == rest;
      [a] + rest
  }

  lemma {:induction false} SplitJoin(pieces: seq<string>, c: char)
    requires |pieces| > 0
    requires forall k :: 0 <= k < |pieces| ==> c !in pieces[k]
    ensures Split(Join(pieces, c), c) == pieces
    decreases |pieces|
  {
    if |pieces| > 1 {
      var s := Join(pieces, c);
      assert s == pieces[0] + [c] + Join(pieces[1..], c);
      IndexOfAfter(pieces[0], c, Join(pieces[1..], c));
      assert s[..|pieces[0]|] == pieces[0];
      assert s[|pieces[0]| + 1..] == Join(pieces[1..], c);
      SplitJoin(pieces[1..], c);
    }
  }

  lemma {:induction false} IndexOfAfter(a: string, c: char, b: string)
    requires c !in a
    ensures IndexOf(a + [c] + b, c) == Some(|a|)
    decreases |a|
  {
    if a != [] {
      assert (a + [c] + b)[1..] == a[1..] + [c] + b;
      IndexOfAfter(a[1..], c, b);
    }
  }

  /** Splitting at the first `c` finds the `c` that follows a `c`-free
      prefix. */
  lemma SplitOnceAt(a: string, c: char, b: string)
    requires c !in a
    ensures SplitOnce(a + [c] + b, c) == Some((a, b))
  {
    IndexOfAfter(a, c, b);
    var s := a + [c] + b;
    assert s[..|a|] == a;
    assert s[|a| + 1..] == b;
  }

  lemma {:induction false} JoinLength(pieces: seq<string>, c: char)
    requires |pieces| > 0
    ensures |Join(pieces, c)| >= |pieces| - 1
    decreases |pieces|
  {
    if |pieces| > 1 {
      JoinLength(pieces[1..], c);
    }
  }

  /** `str::split_terminator(c)`: as `Split`, but an empty last piece is
      dropped (so the empty string has no pieces). */
  function SplitTerminator(s: string, c: char): (r: seq<string>)
    ensures forall k :: 0 <= k < |r| ==> c !in r[k]
    ensures |r| == 0 <==> s == []
    ensures r != [] ==> |Split(s, c)| - 1 <= |r| <= |Split(s, c)| && r == Split(s, c)[..|r|]
  {
    var pieces := Split(s, c);
    JoinLength(pieces, c);
    assert |pieces| == 1 ==> Join(pieces, c) == pieces[0];
    if pieces[|pieces| - 1] == [] then pieces[..|pieces| - 1] else pieces
  }

  /** Index of the first whitespace character, or `|s|` if there is none. */
  function SpaceIndex(s: string): (i: nat)
    ensures i <= |s| && (i < |s| ==> IsSpace(s[i]))
    ensures forall k :: 0 <= k < i ==> !IsSpace(s[k])
  {
    if s == [] || IsSpace(s[0]) then 0 else SpaceIndex(s[1..]) + 1
  }

  /** `str::split_whitespace`: the maximal runs of non-whitespace, in order. */
  function SplitWhitespace(s: string): (r: seq<string>)
    ensures AreWords(r)
    decreases |s|
  {
    var t := TrimStart(s);
    if t == [] then []
    else
      var i := SpaceIndex(t);
      FirstWord(t);
      var rest := SplitWhitespace(t[i..]);
      AreWordsCons(t[..i], rest);
      [t[..i]] + rest
  }

  lemma FirstWord(t: string)
    requires t != [] && !IsSpace(t[0])
    ensures 0 < SpaceIndex(t) && !HasSpace(t[..SpaceIndex(t)])
  {
    var w := t[..SpaceIndex(t)];
    assert forall k :: 0 <= k < |w| ==> w[k] == t[k];
  }

  lemma AreWordsCons(w: string, rest: seq<string>)
    requires w != [] && !HasSpace(w) && AreWords(rest)
    ensures AreWords([w] + rest)
  {
    assert forall k :: 1 <= k <= |rest| ==> ([w] + rest)[k] == rest[k - 1];
  }

  /** Words joined with one space each. */
  function Unwords(words: seq<string>): string {
    if words == [] then [] else if |words| == 1 then words[0] else words[0] + " " + Unwords(words[1..])
  }

  /** Every word is non-empty and holds no whitespace. */
  predicate AreWords(words: seq<string>) {
    forall k :: 0 <= k < |words| ==> words[k] != [] && !HasSpace(words[k])
  }

  lemma {:induction false} SplitWhitespaceUnwords(words: seq<string>)
    requires AreWords(words)
    ensures SplitWhitespace(Unwords(words)) == words
    decreases |words|
  {
    if |words| == 1 {
      AreWordsTail(words);
      SplitWhitespaceSingle(words);
    } else if |words| > 1 {
      AreWordsTail(words);
      var w, tail := words[0], words[1..];
      calc {
        SplitWhitespace(Unwords(words));
        { UnwordsCons(words); }
        SplitWhitespace(w + (" " + Unwords(tail)));
        { SplitWhitespaceStep(w, Unwords(tail)); }
        [w] + SplitWhitespace(Unwords(tail));
        { SplitWhitespaceUnwords(tail); }
        [w] + tail;
      }
    }
  }

  lemma AreWordsTail(words: seq<string>)
    requires AreWords(words) && words != []
    ensures AreWords(words[1..]) && words[0] != [] && !HasSpace(words[0])
  {
    assert forall k :: 0 < k < |words| ==> words[1..][k - 1] == words[k];
  }

  lemma UnwordsCons(words: seq<string>)
    requires |words| > 1
    ensures Unwords(words) == words[0] + (" " + Unwords(words[1..]))
  {
  }

  lemma SplitWhitespaceSingle(words: seq<string>)
    requires |words| == 1 && words[0] != [] && !HasSpace(words[0])
    ensures SplitWhitespace(Unwords(words)) == words
  {
    assert Unwords(words) == words[0] + [];
    SplitWhitespaceCons(words[0], []);
  }

  lemma SplitWhitespaceStep(w: string, rest: string)
    requires w != [] && !HasSpace(w)
    ensures SplitWhitespace(w + (" " + rest)) == [w] + SplitWhitespace(rest)
  {
    SplitWhitespaceCons(w, " " + rest);
    SplitWhitespaceLeadingSpace(rest);
  }

  lemma SplitWhitespaceLeadingSpace(s: string)
    ensures SplitWhitespace(" " + s) == SplitWhitespace(s)
  {
    assert (" " + s)[1..] == s;
    assert TrimStart(" " + s) == TrimStart(s);
  }

  lemma SplitWhitespaceCons(w: string, tail: string)
    requires w != [] && !HasSpace(w)
    requires tail != [] ==> IsSpace(tail[0])
    ensures SplitWhitespace(w + tail) == [w] + SplitWhitespace(tail)
  {
    var s := w + tail;
    assert s[0] == w[0];
    assert !IsSpace(w[0]);
    assert TrimStart(s) == s;
    SpaceIndexOfWord(w, tail);
    assert s[..|w|] == w;
    assert s[|w|..] == tail;
  }

  lemma SpaceIndexOfWord(w: string, tail: string)
    requires !HasSpace(w)
    requires tail != [] ==> IsSpace(tail[0])
    ensures SpaceIndex(w + tail) == |w|
    decreases |w|
  {
    if w != [] {
      assert (w + tail)[1..] == w[1..] + tail;
      assert !IsSpace(w[0]);
      SpaceIndexOfWord(w[1..], tail);
    } else {
      assert w + tail == tail;
    }
  }

  // --------------------------------------------------------------- prefixes

  /** `str::strip_prefix`. */
  function StripPrefix(s: string, p: string): (r: Option<string>)
    ensures r.Some? <==> |p| <= |s| && s[..|p|] == p
    ensures r.Some? ==> s == p + r.value
  {
    if |p| <= |s| && s[..|p|] == p then
      assert s == p + s[|p|..];
      Some(s[|p|..])
    else None
  }

  /** `str::strip_suffix`. */
  function StripSuffix(s: string, p: string): (r: Option<string>)
    ensures r.Some? <==> |p| <= |s| && s[|s| - |p|..] == p
    ensures r.Some? ==> s == r.value + p
  {
    if |p| <= |s| && s[|s| - |p|..] == p then
      assert s == s[..|s| - |p|] + p;
      Some(s[..|s| - |p|])
    else None
  }

  // ---------------------------------------------------------------- numbers

  /** Decimal value of a string of digits, most significant first. */
  function DigitsValue(s: string): nat
    requires AllDigits(s)
  {
    if s == [] then 0 else DigitsValue(s[..|s| - 1]) * 10 + DigitValue(s[|s| - 1])
  }

  /** Rust's `parse` for an unsigned integer type whose values are below
      `limit`: an optional `+`, then at least one ASCII digit, and a value in
      range; anything else is an error. */
  function ParseUnsigned(s: string, limit: nat): (r: Option<nat>)
    ensures r.Some? ==> r.value < limit
    ensures r.Some? ==> s != [] && s != "+"
  {
    var d := if |s| > 0 && s[0] == '+' then s[1..] else s;
    if d != [] && AllDigits(d) && DigitsValue(d) < limit then Some(DigitsValue(d)) else None
  }

  /** Decimal rendering without leading zeros. */
  function NatToString(n: nat): (s: string)
    ensures s != [] && AllDigits(s)
  {
    if n < 10 then [DigitChar(n)] else NatToString(n / 10) + [DigitChar(n % 10)]
  }

  lemma {:induction false} NatToStringValue(n: nat)
    ensures DigitsValue(NatToString(n)) == n
  {
    var s := NatToString(n);
    if n >= 10 {
      NatToStringValue(n / 10);
      assert s[..|s| - 1] == NatToString(n / 10);
    }
  }

  lemma ParseNatToString(n: nat, limit: nat)
    requires n < limit
    ensures ParseUnsigned(NatToString(n), limit) == Some(n)
  {
    NatToStringValue(n);
  }

  /** Parses every token; `None` when one of them does not parse. */
  function ParseAll(tokens: seq<string>, limit: nat): (r: Option<seq<nat>>)
    ensures r.Some? <==> forall i :: 0 <= i < |tokens| ==> ParseUnsigned(tokens[i], limit).Some?
    ensures r.Some? ==> |r.value| == |tokens|
    ensures r.Some? ==> forall i :: 0 <= i < |tokens| ==> ParseUnsigned(tokens[i], limit) == Some(r.value[i])
  {
    MapAll(tokens, t => ParseUnsigned(t, limit))
  }

  /** `parse_num_list`: trim, split at whitespace, parse each token as an
      unsigned integer below `limit`; `None` is the `expect` failing. */
  function ParseNumList(s: string, limit: nat): (r: Option<seq<nat>>)
    ensures r.Some? ==> forall i :: 0 <= i < |r.value| ==> r.value[i] < limit
    ensures r.Some? ==> |r.value| == |SplitWhitespace(Trim(s))|
  {
    ParseAll(SplitWhitespace(Trim(s)), limit)
  }

  function Render(nums: seq<nat>): (words: seq<string>)
    ensures |words| == |nums| && AreWords(words)
  {
    if nums == [] then [] else [NatToString(nums[0])] + Render(nums[1..])
  }

  /** Numbers written in decimal with single spaces between them parse back. */
  lemma {:induction false} ParseNumListRender(nums: seq<nat>, limit: nat)
    requires forall i :: 0 <= i < |nums| ==> nums[i] < limit
    ensures ParseNumList(Unwords(Render(nums)), limit) == Some(nums)
  {
    var words := Render(nums);
    var s := Unwords(words);
    UnwordsEnds(words);
    TrimOfTrimmed(s);
    SplitWhitespaceUnwords(words);
    forall i | 0 <= i < |words| ensures ParseUnsigned(words[i], limit) == Some(nums[i]) {
      RenderAt(nums, i);
      ParseNatToString(nums[i], limit);
    }
    var r := ParseAll(words, limit);
    assert r.value == nums;
  }

  lemma {:induction false} RenderAt(nums: seq<nat>, i: nat)
    requires i < |nums|
    ensures Render(nums)[i] == NatToString(nums[i])
    decreases |nums|
  {
    if i > 0 {
      RenderAt(nums[1..], i - 1);
    }
  }

  lemma {:induction false} UnwordsEnds(words: seq<string>)
    requires AreWords(words)
    ensures var s := Unwords(words); s != [] ==> !IsSpace(s[0]) && !IsSpace(s[|s| - 1])
    decreases |words|
  {
    if |words| > 1 {
      AreWordsTail(words);
      UnwordsCons(words);
      UnwordsEnds(words[1..]);
      var rest := Unwords(words[1..]);
      var s := Unwords(words);
      assert s[0] == words[0][0];
      assert s[|s| - 1] == rest[|rest| - 1];
    } else if |words| == 1 {
      AreWordsTail(words);
    }
  }
}
