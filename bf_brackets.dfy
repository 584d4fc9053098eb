/** The bracket map: both `generate_bracket_map` functions of src/bin/brainfuck.rs (lines 17-43 over raw
    bytes, lines 141-169 over compressed runs), their common specification and its properties. */
module BfBrackets {
  import opened BfSyntax

  /** The outcome of building a bracket map: the index pairing, or "Unbalanced brackets in program." */
  datatype ScanResult = Matched(pairs: map<nat, nat>) | Unbalanced

  /** One step of the stack-based pass from position `i`: `[` pushes its index, `]` pops the most recent
      open index and records the pair both ways, and a `]` met with an empty stack or an open index left
      on the stack at the end is an error. */
  function ScanFrom(xs: seq<Byte>, i: nat, stack: seq<nat>, m: map<nat, nat>): ScanResult
    requires i <= |xs|
    decreases |xs| - i
  {
    if i == |xs| then
      if stack == [] then Matched(m) else Unbalanced
    else if xs[i] == OpOpen then
      ScanFrom(xs, i + 1, stack + [i], m)
    else if xs[i] == OpClose then
      if stack == [] then Unbalanced
      else
        var o := stack[|stack| - 1];
        ScanFrom(xs, i + 1, stack[..|stack| - 1], m[o := i][i := o])
    else
      ScanFrom(xs, i + 1, stack, m)
  }

  /** The bracket map of an instruction stream, read from its start with an empty stack and map. */
  function Scan(xs: seq<Byte>): ScanResult {
    ScanFrom(xs, 0, [], map[])
  }

  // ----- Bracket depth -----

  function Delta(b: Byte): int {
    if b == OpOpen then 1 else if b == OpClose then -1 else 0
  }

  /** Opening brackets minus closing brackets. */
  function Depth(xs: seq<Byte>): int {
    if xs == [] then 0 else Depth(xs[..|xs| - 1]) + Delta(xs[|xs| - 1])
  }

  /** Balanced brackets: no prefix closes more than it opened, and the whole opens as many as it closes. */
  ghost predicate Balanced(xs: seq<Byte>) {
    Depth(xs) == 0 && forall i :: 0 <= i <= |xs| ==> Depth(xs[..i]) >= 0
  }

  /** The map pairs every bracket position with exactly one partner, symmetrically; each pair is an
      opening bracket before its closing bracket; and pairs nest rather than cross. */
  ghost predicate PerfectMatching(xs: seq<Byte>, m: map<nat, nat>) {
    (forall k: nat :: k in m <==> k < |xs| && IsBracket(xs[k])) &&
    (forall k :: k in m ==> m[k] in m && m[m[k]] == k) &&
    (forall k :: k in m && xs[k] == OpOpen ==> k < m[k] && xs[m[k]] == OpClose) &&
    (forall k :: k in m && xs[k] == OpClose ==> m[k] < k && xs[m[k]] == OpOpen) &&
    (forall a, b :: a in m && b in m && a < b < m[a] ==> a < m[b] < m[a])
  }

  /** The stack holds opening-bracket positions already read, oldest first. */
  ghost predicate StackOk(xs: seq<Byte>, i: nat, stack: seq<nat>) {
    i <= |xs| &&
    (forall t :: 0 <= t < |stack| ==> stack[t] < i && xs[stack[t]] == OpOpen) &&
    (forall s, t :: 0 <= s < t < |stack| ==> stack[s] < stack[t])
  }

  /** The map is a perfect matching of some brackets already read. */
  ghost predicate MapOk(xs: seq<Byte>, i: nat, m: map<nat, nat>) {
    i <= |xs| &&
    (forall k :: k in m ==> k < i && IsBracket(xs[k])) &&
    (forall k :: k in m ==> m[k] in m && m[m[k]] == k) &&
    (forall k :: k in m && xs[k] == OpOpen ==> k < m[k] && xs[m[k]] == OpClose) &&
    (forall k :: k in m && xs[k] == OpClose ==> m[k] < k && xs[m[k]] == OpOpen) &&
    Nested(m)
  }

  /** Pairs nest rather than cross. */
  ghost predicate Nested(m: map<nat, nat>) {
    forall a, b :: a in m && b in m && a < b < m[a] ==> a < m[b] < m[a]
  }

  /** Every bracket read so far is either matched (in the map) or pending (on the stack), not both. */
  ghost predicate Partitioned(xs: seq<Byte>, i: nat, stack: seq<nat>, m: map<nat, nat>)
    requires i <= |xs|
  {
    forall k :: 0 <= k < i && IsBracket(xs[k]) ==> (k in m) != (k in stack)
  }

  /** No pending opening bracket lies inside a matched pair. */
  ghost predicate Outside(stack: seq<nat>, m: map<nat, nat>) {
    forall k, t :: k in m && 0 <= t < |stack| ==> !(k < stack[t] < m[k])
  }

  /** The stack height is the bracket depth so far, and no prefix went below zero. */
  ghost predicate DepthOk(xs: seq<Byte>, i: nat, stack: seq<nat>)
    requires i <= |xs|
  {
    |stack| == Depth(xs[..i]) && forall j :: 0 <= j <= i ==> Depth(xs[..j]) >= 0
  }

  /** What the pass has established after reading `xs[..i]`. */
  ghost predicate ScanInv(xs: seq<Byte>, i: nat, stack: seq<nat>, m: map<nat, nat>) {
    StackOk(xs, i, stack) && MapOk(xs, i, m) && Partitioned(xs, i, stack, m) &&
    Outside(stack, m) && DepthOk(xs, i, stack)
  }

  lemma DepthStep(xs: seq<Byte>, i: nat)
    requires i < |xs|
    ensures Depth(xs[..i + 1]) == Depth(xs[..i]) + Delta(xs[i])
  {
    assert xs[..i + 1][..i] == xs[..i];
  }

  lemma DepthOkStep(xs: seq<Byte>, i: nat, stack: seq<nat>, stack': seq<nat>)
    requires i < |xs| && DepthOk(xs, i, stack)
    requires |stack'| == |stack| + Delta(xs[i]) >= 0
    ensures DepthOk(xs, i + 1, stack')
  {
    DepthStep(xs, i);
    forall j | 0 <= j <= i + 1 ensures Depth(xs[..j]) >= 0 {
      if j == i + 1 { } else { }
    }
  }

  lemma ScanInvOpen(xs: seq<Byte>, i: nat, stack: seq<nat>, m: map<nat, nat>)
    requires ScanInv(xs, i, stack, m) && i < |xs| && xs[i] == OpOpen
    ensures ScanInv(xs, i + 1, stack + [i], m)
  {
    var st := stack + [i];
    DepthOkStep(xs, i, stack, st);
    forall k | 0 <= k < i + 1 && IsBracket(xs[k])
      ensures (k in m) != (k in st)
    {
      assert k in st <==> k in stack || k == i;
    }
  }

  lemma CloseMapOk(xs: seq<Byte>, i: nat, o: nat, m: map<nat, nat>)
    requires MapOk(xs, i, m) && i < |xs| && xs[i] == OpClose
    requires o < i && xs[o] == OpOpen && o !in m
    requires forall k :: k in m ==> !(k < o < m[k])
    ensures MapOk(xs, i + 1, m[o := i][i := o])
  {
    assert forall k :: k in m ==> k < i && m[k] < i;
    CloseNested(i, o, m);
  }

  /** Pairing `o` with a later `i` keeps the pairs nested when no pair straddles `o` and all lie before
      `i`. */
  lemma CloseNested(i: nat, o: nat, m: map<nat, nat>)
    requires Nested(m) && o < i && o !in m && i !in m
    requires forall k :: k in m ==> m[k] in m && m[m[k]] == k
    requires forall k :: k in m ==> k < i && m[k] < i && !(k < o < m[k])
    ensures Nested(m[o := i][i := o])
  {
    var m' := m[o := i][i := o];
    forall a, b | a in m' && b in m' && a < b < m'[a]
      ensures a < m'[b] < m'[a]
    {
      if a == o {
        if b != i {
          assert b in m;
          assert !(m[b] < o < b);
        }
      } else if a != i {
        assert a in m && m'[a] == m[a];
        assert b != o;
      }
    }
  }

  lemma CloseOutside(i: nat, stack: seq<nat>, m: map<nat, nat>)
    requires stack != [] && Outside(stack, m)
    requires forall s, t :: 0 <= s < t < |stack| ==> stack[s] < stack[t]
    requires forall k :: k in m ==> k < i && m[k] < i
    requires forall t :: 0 <= t < |stack| ==> stack[t] < i
    ensures Outside(stack[..|stack| - 1], m[stack[|stack| - 1] := i][i := stack[|stack| - 1]])
  {
    var o := stack[|stack| - 1];
    var st := stack[..|stack| - 1];
    var m' := m[o := i][i := o];
    forall k, t | k in m' && 0 <= t < |st|
      ensures !(k < st[t] < m'[k])
    {
      assert st[t] == stack[t] && stack[t] < o;
      if k != o && k != i {
        assert k in m;
      }
    }
  }

  lemma ClosePartitioned(xs: seq<Byte>, i: nat, stack: seq<nat>, m: map<nat, nat>)
    requires StackOk(xs, i, stack) && stack != [] && i < |xs|
    requires Partitioned(xs, i, stack, m)
    ensures Partitioned(xs, i + 1, stack[..|stack| - 1], m[stack[|stack| - 1] := i][i := stack[|stack| - 1]])
  {
    var o := stack[|stack| - 1];
    var st := stack[..|stack| - 1];
    var m' := m[o := i][i := o];
    forall k | 0 <= k < i + 1 && IsBracket(xs[k])
      ensures (k in m') != (k in st)
    {
      assert k in stack <==> k in st || k == o;
      if k in st {
        var t :| 0 <= t < |st| && st[t] == k;
        assert stack[t] < o;
      }
    }
  }

  lemma ScanInvClose(xs: seq<Byte>, i: nat, stack: seq<nat>, m: map<nat, nat>)
    requires ScanInv(xs, i, stack, m) && i < |xs| && xs[i] == OpClose && stack != []
    ensures ScanInv(xs, i + 1, stack[..|stack| - 1], m[stack[|stack| - 1] := i][i := stack[|stack| - 1]])
  {
    var o := stack[|stack| - 1];
    assert o in stack;
    assert o !in m;
    CloseMapOk(xs, i, o, m);
    CloseOutside(i, stack, m);
    ClosePartitioned(xs, i, stack, m);
    DepthOkStep(xs, i, stack, stack[..|stack| - 1]);
  }

  lemma ScanInvSkip(xs: seq<Byte>, i: nat, stack: seq<nat>, m: map<nat, nat>)
    requires ScanInv(xs, i, stack, m) && i < |xs| && !IsBracket(xs[i])
    ensures ScanInv(xs, i + 1, stack, m)
  {
    DepthOkStep(xs, i, stack, stack);
  }

  lemma ScanEnd(xs: seq<Byte>, stack: seq<nat>, m: map<nat, nat>)
    requires ScanInv(xs, |xs|, stack, m)
    ensures stack == [] <==> Balanced(xs)
    ensures stack == [] ==> PerfectMatching(xs, m)
  {
    assert xs[..|xs|] == xs;
    if stack == [] {
      forall k: nat | k < |xs| && IsBracket(xs[k]) ensures k in m { }
    }
  }

  lemma UnmatchedClose(xs: seq<Byte>, i: nat, stack: seq<nat>)
    requires i < |xs| && xs[i] == OpClose && DepthOk(xs, i, stack) && stack == []
    ensures !Balanced(xs)
  {
    DepthStep(xs, i);
    assert Depth(xs[..i + 1]) < 0;
  }

  /** A scan result is right for `xs`: it succeeds exactly when `xs` is balanced, with a perfect matching. */
  ghost predicate ScanMeets(xs: seq<Byte>, r: ScanResult) {
    (r.Matched? <==> Balanced(xs)) && (r.Matched? ==> PerfectMatching(xs, r.pairs))
  }

  /** From any state the invariant describes, the pass succeeds exactly for balanced streams, and what it
      returns is a perfect matching of the brackets. */
  lemma {:induction false} ScanFromCorrect(xs: seq<Byte>, i: nat, stack: seq<nat>, m: map<nat, nat>)
    requires ScanInv(xs, i, stack, m)
    ensures ScanMeets(xs, ScanFrom(xs, i, stack, m))
    decreases |xs| - i
  {
    var r := ScanFrom(xs, i, stack, m);
    if i == |xs| {
      ScanEnd(xs, stack, m);
    } else if xs[i] == OpOpen {
      ScanInvOpen(xs, i, stack, m);
      ScanFromCorrect(xs, i + 1, stack + [i], m);
      assert r == ScanFrom(xs, i + 1, stack + [i], m);
    } else if xs[i] == OpClose {
      if stack == [] {
        UnmatchedClose(xs, i, stack);
        assert r == Unbalanced;
      } else {
        var o := stack[|stack| - 1];
        ScanInvClose(xs, i, stack, m);
        ScanFromCorrect(xs, i + 1, stack[..|stack| - 1], m[o := i][i := o]);
        assert r == ScanFrom(xs, i + 1, stack[..|stack| - 1], m[o := i][i := o]);
      }
    } else {
      ScanInvSkip(xs, i, stack, m);
      ScanFromCorrect(xs, i + 1, stack, m);
      assert r == ScanFrom(xs, i + 1, stack, m);
    }
  }

  /** Bracket-map construction fails exactly when the brackets are unbalanced (a `]` with nothing open,
      or a `[` still open at the end); on success it pairs every bracket with its partner. */
  lemma ScanCorrect(xs: seq<Byte>)
    ensures Scan(xs).Matched? <==> Balanced(xs)
    ensures Scan(xs).Matched? ==> PerfectMatching(xs, Scan(xs).pairs)
  {
    assert xs[..0] == [];
    ScanFromCorrect(xs, 0, [], map[]);
  }

  /** `basic::generate_bracket_map`: one pass over the raw bytes with a stack of open indices. */
  method GenerateBracketMap(program: seq<Byte>) returns (r: ScanResult)
    ensures r == Scan(program)
    ensures r.Matched? <==> Balanced(program)
    ensures r.Matched? ==> PerfectMatching(program, r.pairs)
  {
    var stack: seq<nat> := [];
    var bracketMap: map<nat, nat> := map[];
    for i := 0 to |program|
      invariant ScanFrom(program, i, stack, bracketMap) == Scan(program)
    {
      if program[i] == OpOpen {
        stack := stack + [i];
      } else if program[i] == OpClose {
        if stack != [] {
          var openingBracketIndex := stack[|stack| - 1];
          stack := stack[..|stack| - 1];
          bracketMap := bracketMap[openingBracketIndex := i][i := openingBracketIndex];
        } else {
          ScanCorrect(program);
          return Unbalanced;
        }
      }
    }
    ScanCorrect(program);
    if stack == [] {
      r := Matched(bracketMap);
    } else {
      r := Unbalanced;
    }
  }

  /** `optimized::generate_bracket_map`: the same pass over the instructions of a compressed program,
      so the map is indexed by run. */
  method GenerateCompressedBracketMap(compressed: seq<Op>) returns (r: ScanResult)
    ensures r == Scan(Instrs(compressed))
    ensures r.Matched? <==> Balanced(Instrs(compressed))
    ensures r.Matched? ==> PerfectMatching(Instrs(compressed), r.pairs)
  {
    ghost var xs := Instrs(compressed);
    var stack: seq<nat> := [];
    var bracketMap: map<nat, nat> := map[];
    for i := 0 to |compressed|
      invariant ScanFrom(xs, i, stack, bracketMap) == Scan(xs)
    {
      var instruction := compressed[i].instr;
      if instruction == OpOpen {
        stack := stack + [i];
      } else if instruction == OpClose {
        if stack != [] {
          var openingBracketIndex := stack[|stack| - 1];
          stack := stack[..|stack| - 1];
          bracketMap := bracketMap[openingBracketIndex := i][i := openingBracketIndex];
        } else {
          ScanCorrect(xs);
          return Unbalanced;
        }
      }
    }
    ScanCorrect(xs);
    if stack == [] {
      r := Matched(bracketMap);
    } else {
      r := Unbalanced;
    }
  }
}
