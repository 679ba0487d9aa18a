/** problem_8: walking the desert map. The first line is a cycle of left
    and right turns, every further line a node `N = (L, R)`; part 1 counts
    the steps from "AAA" to "ZZZ", part 2 combines the step counts from every
    node ending in 'A' to a node ending in 'Z' by their least common
    multiple. A walk that never stops is cut off by a fuel bound. */
module Wasteland {
  import opened Wrappers
  import opened Text

  datatype Instruction = Left | Right

  function InstructionChar(instr: Instruction): char {
    match instr
    case Left => 'L'
    case Right => 'R'
  }

  function ParseInstruction(c: char): Option<Instruction> {
    if c == 'L' then Some(Left) else if c == 'R' then Some(Right) else None
  }

  /** `parse_instructions`: one turn per character of the trimmed line;
      `None` is the "Unknown char" panic. */
  function ParseInstructions(ln: string): (r: Option<seq<Instruction>>)
    ensures r.Some? <==> forall k :: 0 <= k < |Trim(ln)| ==> Trim(ln)[k] == 'L' || Trim(ln)[k] == 'R'
    ensures r.Some? ==> |r.value| == |Trim(ln)|
    ensures r.Some? ==> forall k :: 0 <= k < |r.value| ==> InstructionChar(r.value[k]) == Trim(ln)[k]
  {
    MapAll(Trim(ln), ParseInstruction)
  }

  function RenderInstructions(instrs: seq<Instruction>): (s: string)
    ensures |s| == |instrs| && forall k :: 0 <= k < |s| ==> s[k] == InstructionChar(instrs[k])
  {
    seq(|instrs|, k requires 0 <= k < |instrs| => InstructionChar(instrs[k]))
  }

  /** Parsing the rendered turns gives them back. */
  lemma ParseRenderInstructions(instrs: seq<Instruction>)
    ensures ParseInstructions(RenderInstructions(instrs)) == Some(instrs)
  {
    var s := RenderInstructions(instrs);
    TrimOfTrimmed(s);
    var r := ParseInstructions(s);
    forall k | 0 <= k < |s| ensures s[k] == 'L' || s[k] == 'R' {
      assert s[k] == InstructionChar(instrs[k]);
    }
    assert |r.value| == |instrs|;
    forall k | 0 <= k < |instrs| ensures r.value[k] == instrs[k] {
      assert InstructionChar(r.value[k]) == InstructionChar(instrs[k]);
    }
    assert r.value == instrs;
  }

  /** A node and the two nodes it leads to. */
  datatype Node = Node(name: string, out: (string, string)) {
    /** `get_next_name`: the left exit for `Left`, the right exit for
        `Right`. */
    function NextName(instr: Instruction): (r: string)
      ensures instr == Left ==> r == out.0
      ensures instr == Right ==> r == out.1
    {
      match instr
      case Left => out.0
      case Right => out.1
    }
  }

  /** `parse_node_tuple`: `(L, R)` with both names trimmed; `None` is a
      missing parenthesis or comma. */
  function ParseNodeTuple(right: string): (r: Option<(string, string)>)
    ensures r.Some? ==> |right| >= 2 && right[0] == '(' && right[|right| - 1] == ')'
  {
    match StripPrefix(right, "(")
    case None => None
    case Some(v) =>
      match StripSuffix(v, ")")
      case None => None
      case Some(inner) =>
        match SplitOnce(inner, ',')
        case None => None
        case Some(parts) => Some((Trim(parts.0), Trim(parts.1)))
  }

  /** `parse_node_line`: `N = (L, R)`; `None` is a missing '=' or a
      malformed tuple. */
  function ParseNodeLine(ln: string): (r: Option<Node>)
    ensures r.Some? ==> '=' in ln
  {
    match SplitOnce(ln, '=')
    case None => None
    case Some(parts) =>
      match ParseNodeTuple(Trim(parts.1))
      case None => None
      case Some(out) => Some(Node(Trim(parts.0), out))
  }

  /** The line format of a node, as in the puzzle input. */
  function RenderNode(n: Node): string {
    (n.name + " ") + "=" + (" " + RenderTuple(n.out.0, n.out.1))
  }

  function RenderTuple(a: string, b: string): string {
    "(" + a + ", " + b + ")"
  }

  /** A name without surrounding whitespace. */
  predicate Trimmed(s: string) {
    s != [] ==> !IsSpace(s[0]) && !IsSpace(s[|s| - 1])
  }

  /** Parsing a rendered exit pair gives it back. */
  lemma ParseRenderTuple(a: string, b: string)
    requires Trimmed(a) && Trimmed(b) && ',' !in a
    ensures ParseNodeTuple(RenderTuple(a, b)) == Some((a, b))
  {
    var inner := a + [','] + (" " + b);
    assert RenderTuple(a, b) == "(" + inner + ")";
    assert StripPrefix(RenderTuple(a, b), "(") == Some(inner + ")") && StripSuffix(inner + ")", ")") == Some(inner) by {
      StripParens(inner);
    }
    assert SplitOnce(inner, ',') == Some((a, " " + b)) by {
      SplitOnceAt(a, ',', " " + b);
    }
    assert Trim(a) == a by {
      TrimOfTrimmed(a);
    }
    assert Trim(" " + b) == b by {
      TrimPadLeft(b);
    }
  }

  lemma StripParens(inner: string)
    ensures var v := StripPrefix("(" + inner + ")", "(");
      v == Some(inner + ")") && StripSuffix(v.value, ")") == Some(inner)
  {
    var t := "(" + inner + ")";
    assert t[..1] == "(";
    assert t[1..] == inner + ")";
    var v := inner + ")";
    assert v[|v| - 1..] == ")";
    assert v[..|v| - 1] == inner;
  }

  /** Parsing a rendered node gives it back, provided the name holds no
      '=', the left exit no ',' and no name has surrounding whitespace. */
  lemma ParseRenderNode(n: Node)
    requires Trimmed(n.name) && Trimmed(n.out.0) && Trimmed(n.out.1)
    requires '=' !in n.name && ',' !in n.out.0
    ensures ParseNodeLine(RenderNode(n)) == Some(n)
  {
    RenderNodeSplit(n);
    TrimPadRight(n.name);
    RenderTupleTrim(n.out.0, n.out.1);
    ParseRenderTuple(n.out.0, n.out.1);
  }

  lemma RenderNodeSplit(n: Node)
    requires '=' !in n.name
    ensures SplitOnce(RenderNode(n), '=') == Some((n.name + " ", " " + RenderTuple(n.out.0, n.out.1)))
  {
    SplitOnceAt(n.name + " ", '=', " " + RenderTuple(n.out.0, n.out.1));
  }

  lemma RenderTupleTrim(a: string, b: string)
    ensures Trim(" " + RenderTuple(a, b)) == RenderTuple(a, b)
  {
    var t := RenderTuple(a, b);
    assert t[0] == '(' && t[|t| - 1] == ')';
    TrimPadLeft(t);
  }

  /** `nodes.map(|node| (node.name.clone(), node)).collect()`: a later node
      of the same name replaces an earlier one. */
  function NodeMap(nodes: seq<Node>): (m: map<string, Node>)
    ensures forall k :: 0 <= k < |nodes| ==> nodes[k].name in m
    ensures forall name :: name in m ==> m[name].name == name && m[name] in nodes
  {
    if nodes == [] then map[]
    else NodeMap(nodes[..|nodes| - 1])[nodes[|nodes| - 1].name := nodes[|nodes| - 1]]
  }

  /** The map holds, for every name, the last node of that name. */
  lemma {:induction false} NodeMapLastWins(nodes: seq<Node>, i: nat)
    requires i < |nodes| && forall j :: i < j < |nodes| ==> nodes[j].name != nodes[i].name
    ensures NodeMap(nodes)[nodes[i].name] == nodes[i]
  {
    if i < |nodes| - 1 {
      NodeMapLastWins(nodes[..|nodes| - 1], i);
    }
  }

  // ---------------------------------------------------------------- walking

  /** What a walk comes to: the step count, a panic (a missing node, or
      `is_end` on an empty name), or no stop within the fuel. */
  datatype Outcome = Steps(count: nat) | Panicked | OutOfFuel

  /** Step `k` uses turn `k mod len` of the cycle. */
  function InstrAt(instrs: seq<Instruction>, k: nat): Instruction
    requires instrs != []
  {
    instrs[k % |instrs|]
  }

  /** The node reached after `k` steps from `start`, ignoring any stop;
      `None` once a node was missing from the map. */
  function PositionAt(nodes: map<string, Node>, instrs: seq<Instruction>, start: string, k: nat): Option<string>
    requires instrs != []
  {
    if k == 0 then Some(start)
    else
      match PositionAt(nodes, instrs, start, k - 1)
      case None => None
      case Some(c) => if c in nodes then Some(nodes[c].NextName(InstrAt(instrs, k - 1))) else None
  }

  /** The `fold_while` over the cycled turns from node `curr` after `n`
      steps: stop when `stop` says so, otherwise follow the turn of step
      `n`; at most `fuel` more steps. */
  function WalkFrom(nodes: map<string, Node>, instrs: seq<Instruction>, stop: string -> Option<bool>,
                    curr: string, n: nat, fuel: nat): Outcome
    requires instrs != []
    decreases fuel
  {
    match stop(curr)
    case None => Panicked
    case Some(done) =>
      if done then Steps(n)
      else if curr !in nodes then Panicked
      else if fuel == 0 then OutOfFuel
      else WalkFrom(nodes, instrs, stop, nodes[curr].NextName(InstrAt(instrs, n)), n + 1, fuel - 1)
  }

  /** A walk from `start`; cycling an empty list of turns yields no step,
      so the fold ends at once with 0. */
  function Walk(nodes: map<string, Node>, instrs: seq<Instruction>, stop: string -> Option<bool>,
                start: string, fuel: nat): Outcome
  {
    if instrs == [] then Steps(0) else WalkFrom(nodes, instrs, stop, start, 0, fuel)
  }

  /** Position `k` exists and does not stop. */
  ghost predicate Passes(nodes: map<string, Node>, instrs: seq<Instruction>, stop: string -> Option<bool>,
                         start: string, k: nat)
    requires instrs != []
  {
    PositionAt(nodes, instrs, start, k).Some? && stop(PositionAt(nodes, instrs, start, k).value) == Some(false)
  }

  /** The first `n` positions exist and do not stop, and position `n` stops. */
  ghost predicate StopsAt(nodes: map<string, Node>, instrs: seq<Instruction>, stop: string -> Option<bool>,
                          start: string, n: nat)
    requires instrs != []
  {
    && (forall k: nat :: k < n ==> Passes(nodes, instrs, stop, start, k))
    && PositionAt(nodes, instrs, start, n).Some?
    && stop(PositionAt(nodes, instrs, start, n).value) == Some(true)
  }

  /** At most one step count stops first. */
  lemma StopsAtUnique(nodes: map<string, Node>, instrs: seq<Instruction>, stop: string -> Option<bool>,
                      start: string, n: nat, n': nat)
    requires instrs != []
    requires StopsAt(nodes, instrs, stop, start, n) && StopsAt(nodes, instrs, stop, start, n')
    ensures n == n'
  {
    assert n < n' ==> Passes(nodes, instrs, stop, start, n);
    assert n' < n ==> Passes(nodes, instrs, stop, start, n');
  }

  /** A walk resumed at position `m` counts exactly the first stop, within
      the fuel. */
  lemma {:induction false} WalkFromSteps(nodes: map<string, Node>, instrs: seq<Instruction>, stop: string -> Option<bool>,
                                         start: string, curr: string, m: nat, fuel: nat, n: nat)
    requires instrs != [] && PositionAt(nodes, instrs, start, m) == Some(curr)
    requires forall k: nat :: k < m ==> Passes(nodes, instrs, stop, start, k)
    ensures WalkFrom(nodes, instrs, stop, curr, m, fuel) == Steps(n) <==>
      m <= n <= m + fuel && StopsAt(nodes, instrs, stop, start, n)
    decreases fuel
  {
    var s := stop(curr);
    if s == Some(true) {
      assert WalkFrom(nodes, instrs, stop, curr, m, fuel) == Steps(m);
      if StopsAt(nodes, instrs, stop, start, n) {
        StopsAtUnique(nodes, instrs, stop, start, n, m);
      }
    } else if s == Some(false) && curr in nodes && fuel > 0 {
      var next := nodes[curr].NextName(InstrAt(instrs, m));
      assert WalkFrom(nodes, instrs, stop, curr, m, fuel) == WalkFrom(nodes, instrs, stop, next, m + 1, fuel - 1);
      assert PositionAt(nodes, instrs, start, m + 1) == Some(next);
      assert Passes(nodes, instrs, stop, start, m);
      WalkFromSteps(nodes, instrs, stop, start, next, m + 1, fuel - 1, n);
      if StopsAt(nodes, instrs, stop, start, n) {
        assert n != m;
      }
    } else {
      assert !WalkFrom(nodes, instrs, stop, curr, m, fuel).Steps?;
      StopsAtPasses(nodes, instrs, stop, start, m, n);
    }
  }

  /** Before its first stop, a walk passes every position and reaches the
      next one. */
  lemma StopsAtPasses(nodes: map<string, Node>, instrs: seq<Instruction>, stop: string -> Option<bool>,
                      start: string, m: nat, n: nat)
    requires instrs != []
    ensures StopsAt(nodes, instrs, stop, start, n) && m < n ==>
      Passes(nodes, instrs, stop, start, m) && PositionAt(nodes, instrs, start, m + 1).Some?
  {
    if StopsAt(nodes, instrs, stop, start, n) && m < n {
      assert Passes(nodes, instrs, stop, start, m);
      if m + 1 < n {
        assert Passes(nodes, instrs, stop, start, m + 1);
      }
    }
  }

  /** A walk counts `n` steps exactly when position `n` is the first one
      that stops and the fuel lasts that far. */
  lemma WalkSteps(nodes: map<string, Node>, instrs: seq<Instruction>, stop: string -> Option<bool>,
                  start: string, fuel: nat, n: nat)
    requires instrs != []
    ensures Walk(nodes, instrs, stop, start, fuel) == Steps(n) <==>
      n <= fuel && StopsAt(nodes, instrs, stop, start, n)
  {
    WalkFromSteps(nodes, instrs, stop, start, start, 0, fuel, n);
  }

  /** Part 1 stops at "ZZZ". */
  function IsZZZ(name: string): Option<bool> {
    Some(name == "ZZZ")
  }

  /** `is_end`: the name ends in 'Z'; `None` is the panic on an empty
      name. */
  function IsEnd(name: string): (r: Option<bool>)
    ensures r.None? <==> name == []
    ensures r == Some(true) <==> name != [] && name[|name| - 1] == 'Z'
  {
    if name == [] then None else Some(name[|name| - 1] == 'Z')
  }

  /** The turns and the nodes of the input; `None` is an empty input or a
      malformed line. */
  function ParseInput(input: seq<string>): (r: Option<(seq<Instruction>, seq<Node>)>)
    ensures r.Some? ==> r.value.0 != []
  {
    var lines := TrimmedLines(input);
    if lines == [] then None
    else
      match ParseInstructions(lines[0])
      case None => None
      case Some(instrs) =>
        TrimOfTrimmed(lines[0]);
        match MapAll(lines[1..], ParseNodeLine)
        case None => None
        case Some(nodes) => Some((instrs, nodes))
  }

  /** Part 1: the steps from "AAA" to "ZZZ". */
  function Part1(input: seq<string>, fuel: nat): Outcome {
    match ParseInput(input)
    case None => Panicked
    case Some(parsed) => Walk(NodeMap(parsed.1), parsed.0, IsZZZ, "AAA", fuel)
  }

  /** Part 1 counts `n` steps exactly when the input parses and `n`, within
      the fuel, is the first step at which the walk from "AAA" is at
      "ZZZ", every node before it being in the map. */
  lemma Part1Steps(input: seq<string>, fuel: nat, n: nat)
    ensures Part1(input, fuel) == Steps(n) <==>
      ParseInput(input).Some? && n <= fuel
      && StopsAt(NodeMap(ParseInput(input).value.1), ParseInput(input).value.0, IsZZZ, "AAA", n)
  {
    if ParseInput(input).Some? {
      var parsed := ParseInput(input).value;
      WalkSteps(NodeMap(parsed.1), parsed.0, IsZZZ, "AAA", fuel, n);
    }
  }

  // --------------------------------------------------------------- part 2

  function EndsInA(name: string): bool {
    name != [] && name[|name| - 1] == 'A'
  }

  /** The distinct node names ending in 'A'. The source takes them in hash
      map order; here they come in input order, which the least common
      multiple does not depend on. */
  function StartNames(nodes: seq<Node>): (r: seq<string>)
    ensures forall a, b :: 0 <= a < b < |r| ==> r[a] != r[b]
  {
    if nodes == [] then []
    else
      var rest := StartNames(nodes[1..]);
      if EndsInA(nodes[0].name) && nodes[0].name !in rest then [nodes[0].name] + rest else rest
  }

  /** The start names are the map's keys that end in 'A'. */
  lemma {:induction false} StartNamesAreStarts(nodes: seq<Node>)
    ensures forall name :: name in StartNames(nodes) <==> name in NodeMap(nodes) && EndsInA(name)
  {
    if nodes != [] {
      StartNamesAreStarts(nodes[1..]);
      NodeNames(nodes);
      NodeNames(nodes[1..]);
    }
  }

  /** The keys of the node map are the names of the nodes. */
  lemma {:induction false} NodeNames(nodes: seq<Node>)
    ensures forall name :: name in NodeMap(nodes) <==> exists k :: 0 <= k < |nodes| && nodes[k].name == name
  {
    if nodes != [] {
      NodeNames(nodes[..|nodes| - 1]);
    }
  }

  function Gcd(a: nat, b: nat): nat
    decreases b
  {
    if b == 0 then a else Gcd(b, a % b)
  }

  /** `num::Integer::lcm` on unsigned integers. */
  function Lcm(a: nat, b: nat): nat {
    if a == 0 && b == 0 then 0
    else
      GcdPositive(a, b);
      Times(a, b / Gcd(a, b))
  }

  function Times(a: nat, k: nat): nat {
    a * k
  }

  /** `r` is a multiple of `a`. */
  ghost predicate MultipleOf(r: nat, a: nat) {
    exists k: nat :: r == Times(a, k)
  }

  lemma GcdPositive(a: nat, b: nat)
    requires a != 0 || b != 0
    ensures Gcd(a, b) > 0
    decreases b
  {
    if b != 0 && a % b != 0 {
      GcdPositive(b, a % b);
    }
  }

  /** The greatest common divisor divides both arguments. */
  lemma {:induction false} GcdDivides(a: nat, b: nat)
    ensures MultipleOf(a, Gcd(a, b)) && MultipleOf(b, Gcd(a, b))
    decreases b
  {
    var g := Gcd(a, b);
    if b == 0 {
      assert a == Times(g, 1);
      assert b == Times(g, 0);
    } else {
      GcdDivides(b, a % b);
      var kb: nat :| b == Times(g, kb);
      var kr: nat :| a % b == Times(g, kr);
      QuotientStep(a, b, g, kb, kr);
      assert a == Times(g, a / b * kb + kr);
    }
  }

  /** Every common divisor of the arguments divides their greatest common
      divisor. */
  lemma {:induction false} GcdGreatest(a: nat, b: nat, d: nat)
    requires MultipleOf(a, d) && MultipleOf(b, d)
    ensures MultipleOf(Gcd(a, b), d)
    decreases b
  {
    if b != 0 {
      var ka: nat :| a == Times(d, ka);
      var kb: nat :| b == Times(d, kb);
      RemainderMultiple(a, b, d, ka, kb);
      GcdGreatest(b, a % b, d);
    }
  }

  /** If `d` divides `a` and `b`, it divides `a % b`. */
  lemma RemainderMultiple(a: nat, b: nat, d: nat, ka: nat, kb: nat)
    requires b > 0 && a == d * ka && b == d * kb
    ensures MultipleOf(a % b, d)
  {
    var q := a / b;
    assert a == q * b + a % b;
    assert q * b == d * (q * kb) by {
      assert q * b == q * (d * kb);
    }
    var k := ka - q * kb;
    assert a % b == d * k;
    if k < 0 {
      AtLeastFactor(d, -k);
      assert false;
    }
    assert a % b == Times(d, k);
  }

  /** Euclid's step on multiples: if `g` divides `b` and `a % b`, it divides `a`. */
  lemma QuotientStep(a: nat, b: nat, g: nat, kb: nat, kr: nat)
    requires b > 0 && b == g * kb && a % b == g * kr
    ensures a == g * (a / b * kb + kr)
  {
    var q := a / b;
    assert a == q * b + a % b;
    assert q * b == g * (q * kb) by {
      assert q * b == q * (g * kb);
    }
    assert g * (q * kb + kr) == g * (q * kb) + g * kr;
  }

  lemma ExactQuotient(g: nat, k: nat)
    requires g > 0
    ensures (g * k) / g == k
  {
    var x := g * k;
    var q, r := x / g, x % g;
    assert x == g * q + r && 0 <= r < g;
    assert g * (k - q) == r;
    assert g * (q - k) == -r;
    AtLeastFactor(g, k - q);
    AtLeastFactor(g, q - k);
  }

  lemma AtLeastFactor(g: nat, d: int)
    ensures d >= 1 ==> g * d >= g
  {
  }

  /** The least common multiple is a multiple of both arguments. */
  lemma LcmCommonMultiple(a: nat, b: nat)
    ensures MultipleOf(Lcm(a, b), a) && MultipleOf(Lcm(a, b), b)
  {
    if a == 0 && b == 0 {
      assert Lcm(a, b) == Times(a, 0);
    } else {
      GcdPositive(a, b);
      GcdDivides(a, b);
      var g := Gcd(a, b);
      var ka: nat :| a == Times(g, ka);
      var kb: nat :| b == Times(g, kb);
      ExactQuotient(g, kb);
      assert Lcm(a, b) == Times(a, kb);
      TimesSwap(g, ka, kb);
      assert Lcm(a, b) == Times(b, ka);
    }
  }

  /** The least common multiple is 0 exactly when one argument is. */
  lemma LcmZero(a: nat, b: nat)
    ensures Lcm(a, b) == 0 <==> a == 0 || b == 0
  {
    if a != 0 && b != 0 {
      GcdPositive(a, b);
      GcdDivides(a, b);
      var g := Gcd(a, b);
      var kb: nat :| b == Times(g, kb);
      ExactQuotient(g, kb);
      assert kb >= 1;
      AtLeastFactor(a, kb);
    } else if a != 0 {
      assert Gcd(a, b) == a;
    }
  }

  lemma TimesSwap(g: nat, x: nat, y: nat)
    ensures Times(Times(g, x), y) == Times(Times(g, y), x)
  {
    assert (g * x) * y == g * (x * y) == g * (y * x) == (g * y) * x;
  }

  lemma MultipleTransitive(r: nat, m: nat, a: nat)
    requires MultipleOf(r, m) && MultipleOf(m, a)
    ensures MultipleOf(r, a)
  {
    var k1: nat :| r == Times(m, k1);
    var k2: nat :| m == Times(a, k2);
    assert r == (a * k2) * k1 == a * (k2 * k1);
    assert r == Times(a, k2 * k1);
  }

  /** `amounts.reduce(|a, b| a.lcm(&b))`, continued from `acc`; the first
      walk that does not count decides the outcome. */
  function ReduceLcm(outs: seq<Outcome>, acc: nat): Outcome {
    if outs == [] then Steps(acc)
    else
      match outs[0]
      case Steps(c) => ReduceLcm(outs[1..], Lcm(acc, c))
      case other => other
  }

  /** A reduced count is a common multiple of `acc` and every count. */
  lemma {:induction false} ReduceLcmCommonMultiple(outs: seq<Outcome>, acc: nat)
    requires ReduceLcm(outs, acc).Steps?
    ensures MultipleOf(ReduceLcm(outs, acc).count, acc)
    ensures forall i :: 0 <= i < |outs| ==> outs[i].Steps? && MultipleOf(ReduceLcm(outs, acc).count, outs[i].count)
  {
    var r := ReduceLcm(outs, acc);
    if outs == [] {
      assert r.count == Times(acc, 1);
    } else {
      var c := outs[0].count;
      var l := Lcm(acc, c);
      ReduceLcmCommonMultiple(outs[1..], l);
      LcmCommonMultiple(acc, c);
      MultipleTransitive(r.count, l, acc);
      MultipleTransitive(r.count, l, c);
      forall i | 1 <= i < |outs| ensures outs[i].Steps? && MultipleOf(r.count, outs[i].count) {
        assert outs[i] == outs[1..][i - 1];
      }
    }
  }

  /** The walk lengths from the start names. */
  function Runs(nodes: map<string, Node>, instrs: seq<Instruction>, starts: seq<string>, fuel: nat): (outs: seq<Outcome>)
    ensures |outs| == |starts|
    ensures forall i :: 0 <= i < |starts| ==> outs[i] == Walk(nodes, instrs, IsEnd, starts[i], fuel)
    ensures instrs != [] ==> forall i, n: nat :: 0 <= i < |starts| ==>
      (outs[i] == Steps(n) <==> n <= fuel && StopsAt(nodes, instrs, IsEnd, starts[i], n))
  {
    WalksStop(nodes, instrs, starts, fuel);
    seq(|starts|, i requires 0 <= i < |starts| => Walk(nodes, instrs, IsEnd, starts[i], fuel))
  }

  lemma WalksStop(nodes: map<string, Node>, instrs: seq<Instruction>, starts: seq<string>, fuel: nat)
    ensures instrs != [] ==> forall i, n: nat :: 0 <= i < |starts| ==>
      (Walk(nodes, instrs, IsEnd, starts[i], fuel) == Steps(n) <==> n <= fuel && StopsAt(nodes, instrs, IsEnd, starts[i], n))
  {
    if instrs != [] {
      forall i, n: nat | 0 <= i < |starts| {
        WalkSteps(nodes, instrs, IsEnd, starts[i], fuel, n);
      }
    }
  }

  /** Part 2: the least common multiple of the walk lengths from every node
      ending in 'A' to a node ending in 'Z'; no such start is the
      `unwrap` panic. */
  function Part2(input: seq<string>, fuel: nat): Outcome {
    match ParseInput(input)
    case None => Panicked
    case Some(parsed) =>
      var starts := StartNames(parsed.1);
      var outs := Runs(NodeMap(parsed.1), parsed.0, starts, fuel);
      if outs == [] then Panicked
      else
        match outs[0]
        case Steps(c) => ReduceLcm(outs[1..], c)
        case other => other
  }

  /** A part 2 count is a common multiple of the walk length from every
      start. */
  lemma Part2CommonMultiple(input: seq<string>, fuel: nat)
    requires Part2(input, fuel).Steps? && ParseInput(input).Some?
    ensures var parsed := ParseInput(input).value;
      forall s :: s in NodeMap(parsed.1) && EndsInA(s) ==>
        Walk(NodeMap(parsed.1), parsed.0, IsEnd, s, fuel).Steps?
        && MultipleOf(Part2(input, fuel).count, Walk(NodeMap(parsed.1), parsed.0, IsEnd, s, fuel).count)
  {
    var parsed := ParseInput(input).value;
    var starts := StartNames(parsed.1);
    var m := NodeMap(parsed.1);
    var outs := Runs(m, parsed.0, starts, fuel);
    var r := Part2(input, fuel);
    StartNamesAreStarts(parsed.1);
    var c := outs[0].count;
    ReduceLcmCommonMultiple(outs[1..], c);
    forall s | s in m && EndsInA(s)
      ensures Walk(m, parsed.0, IsEnd, s, fuel).Steps? && MultipleOf(r.count, Walk(m, parsed.0, IsEnd, s, fuel).count)
    {
      var i :| 0 <= i < |starts| && starts[i] == s;
      if i > 0 {
        assert outs[i] == outs[1..][i - 1];
      }
    }
  }
}
