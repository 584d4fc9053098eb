/** The two interpreters of src/bin/brainfuck.rs agree: running the compressed program one run per
    step (`optimized::run`) ends exactly as running the raw bytes one per step (`basic::run`) — same
    output, same final tape, same panic, same bracket error.

    The proof rewrites the raw program into its compressed form one local edit at a time: dropping a
    comment byte, or merging two neighbouring runs of the same mergeable instruction. Neither edit
    touches a bracket, so the bracket maps of the two versions correspond position by position, and
    each machine simulates the other. */
module BfEquivalence {
  import opened BfSyntax
  import opened BfBrackets
  import opened BfCompress
  import opened BfMachine
  import opened BfInterpreters

  /** Position `j` after deleting the element at position `r` (positions up to `r` stay, later ones
      move down by one). */
  function Down(j: nat, r: nat): nat {
    if j <= r then j else j - 1
  }

  function DownAll(st: seq<nat>, r: nat): (d: seq<nat>)
    ensures |d| == |st| && forall t :: 0 <= t < |st| ==> d[t] == Down(st[t], r)
  {
    seq(|st|, t requires 0 <= t < |st| => Down(st[t], r))
  }

  /** Every pair of `m` reappears in `m2` with both positions moved down past the deleted position `r`. */
  ghost predicate MapCorr(m: map<nat, nat>, m2: map<nat, nat>, r: nat) {
    forall k :: k in m ==> Down(k, r) in m2 && m2[Down(k, r)] == Down(m[k], r)
  }

  // ----- The bracket map survives deleting a non-bracket -----

  lemma MapCorrUpdate(m: map<nat, nat>, m2: map<nat, nat>, r: nat, o: nat, i: nat)
    requires MapCorr(m, m2, r) && o != r && i != r && o != i
    requires forall k :: k in m ==> k != r
    ensures MapCorr(m[o := i][i := o], m2[Down(o, r) := Down(i, r)][Down(i, r) := Down(o, r)], r)
  {
  }

  /** What deleting position `r` does to a bracket scan in progress: the scan of `ys` from the moved
      position, with the moved stack and a corresponding map, succeeds exactly when the scan of `xs`
      does, with a corresponding map. */
  ghost predicate ScanAgrees(xs: seq<Byte>, ys: seq<Byte>, r: nat, i: nat, st: seq<nat>,
                             m: map<nat, nat>, m2: map<nat, nat>)
    requires i <= |xs| && Down(i, r) <= |ys|
  {
    var a := ScanFrom(xs, i, st, m);
    var b := ScanFrom(ys, Down(i, r), DownAll(st, r), m2);
    a.Matched? == b.Matched? && (a.Matched? ==> MapCorr(a.pairs, b.pairs, r))
  }

  /** The invariant the two scans keep: no stacked or paired position is the deleted one, the stack
      holds positions already read, and the maps correspond. */
  ghost predicate ScanRemoveInv(xs: seq<Byte>, ys: seq<Byte>, r: nat, i: nat, st: seq<nat>,
                                m: map<nat, nat>, m2: map<nat, nat>)
  {
    r < |xs| && !IsBracket(xs[r]) && ys == xs[..r] + xs[r + 1..] && i <= |xs| &&
    (forall t :: 0 <= t < |st| ==> st[t] != r && st[t] < i) &&
    (forall k :: k in m ==> k != r) &&
    MapCorr(m, m2, r)
  }

  lemma {:induction false} ScanRemoveFrom(xs: seq<Byte>, ys: seq<Byte>, r: nat, i: nat,
                                          st: seq<nat>, m: map<nat, nat>, m2: map<nat, nat>)
    requires ScanRemoveInv(xs, ys, r, i, st, m, m2)
    ensures Down(i, r) <= |ys| && ScanAgrees(xs, ys, r, i, st, m, m2)
    decreases |xs| - i, 2
  {
    var st2 := DownAll(st, r);
    var j := Down(i, r);
    assert |ys| == |xs| - 1;
    if i == |xs| {
      assert j == |ys|;
    } else if i == r {
      assert ScanFrom(xs, i, st, m) == ScanFrom(xs, i + 1, st, m);
      assert Down(i + 1, r) == j;
      ScanRemoveFrom(xs, ys, r, i + 1, st, m, m2);
    } else if xs[i] == OpClose {
      ScanRemoveClose(xs, ys, r, i, st, m, m2);
    } else {
      assert ys[j] == xs[i];
      assert Down(i + 1, r) == j + 1;
      if xs[i] == OpOpen {
        assert DownAll(st + [i], r) == st2 + [j];
        assert ScanFrom(xs, i, st, m) == ScanFrom(xs, i + 1, st + [i], m);
        assert ScanFrom(ys, j, st2, m2) == ScanFrom(ys, j + 1, st2 + [j], m2);
        ScanRemoveFrom(xs, ys, r, i + 1, st + [i], m, m2);
      } else {
        assert ScanFrom(xs, i, st, m) == ScanFrom(xs, i + 1, st, m);
        assert ScanFrom(ys, j, st2, m2) == ScanFrom(ys, j + 1, st2, m2);
        ScanRemoveFrom(xs, ys, r, i + 1, st, m, m2);
      }
    }
  }

  lemma ScanFromClose(xs: seq<Byte>, i: nat, stack: seq<nat>, m: map<nat, nat>)
    requires i < |xs| && xs[i] == OpClose && stack != []
    ensures ScanFrom(xs, i, stack, m) ==
      ScanFrom(xs, i + 1, stack[..|stack| - 1], m[stack[|stack| - 1] := i][i := stack[|stack| - 1]])
  {
  }

  /** Away from the deleted position, the element at `i` of `xs` sits at `Down(i, r)` in `ys`. */
  lemma RemoveIndex(xs: seq<Byte>, ys: seq<Byte>, r: nat, i: nat)
    requires r < |xs| && ys == xs[..r] + xs[r + 1..] && i < |xs| && i != r
    ensures |ys| == |xs| - 1 && Down(i, r) < |ys| && ys[Down(i, r)] == xs[i]
  {
    if i > r {
      assert ys[i - 1] == xs[r + 1..][i - 1 - r];
    }
  }

  /** The `]` case: with an empty stack both scans fail; otherwise both pop. */
  lemma {:induction false} ScanRemoveClose(xs: seq<Byte>, ys: seq<Byte>, r: nat, i: nat,
                                           st: seq<nat>, m: map<nat, nat>, m2: map<nat, nat>)
    requires ScanRemoveInv(xs, ys, r, i, st, m, m2) && i < |xs| && i != r && xs[i] == OpClose
    ensures Down(i, r) <= |ys| && ScanAgrees(xs, ys, r, i, st, m, m2)
    decreases |xs| - i, 1
  {
    RemoveIndex(xs, ys, r, i);
    if st != [] {
      ScanRemovePop(xs, ys, r, i, st, m, m2);
    }
  }

  lemma DownAllPop(st: seq<nat>, r: nat)
    requires st != []
    ensures DownAll(st, r)[..|st| - 1] == DownAll(st[..|st| - 1], r)
    ensures DownAll(st, r)[|st| - 1] == Down(st[|st| - 1], r)
  {
  }

  /** Popping the same opening position on both sides keeps the invariant. */
  lemma PopInv(xs: seq<Byte>, ys: seq<Byte>, r: nat, i: nat, st: seq<nat>, m: map<nat, nat>, m2: map<nat, nat>)
    requires ScanRemoveInv(xs, ys, r, i, st, m, m2) && i < |xs| && i != r && st != []
    ensures var o := st[|st| - 1];
      ScanRemoveInv(xs, ys, r, i + 1, st[..|st| - 1], m[o := i][i := o],
                    m2[Down(o, r) := Down(i, r)][Down(i, r) := Down(o, r)])
  {
    MapCorrUpdate(m, m2, r, st[|st| - 1], i);
  }

  /** Both scans pop the same (moved) opening position and record the same (moved) pair. */
  lemma {:induction false} ScanRemovePop(xs: seq<Byte>, ys: seq<Byte>, r: nat, i: nat,
                                         st: seq<nat>, m: map<nat, nat>, m2: map<nat, nat>)
    requires ScanRemoveInv(xs, ys, r, i, st, m, m2) && i < |xs| && i != r && xs[i] == OpClose && st != []
    ensures Down(i, r) <= |ys| && ScanAgrees(xs, ys, r, i, st, m, m2)
    decreases |xs| - i, 0
  {
    var o, rest := st[|st| - 1], st[..|st| - 1];
    var j, o2 := Down(i, r), Down(o, r);
    var mm, mm2 := m[o := i][i := o], m2[o2 := j][j := o2];
    RemoveIndex(xs, ys, r, i);
    assert Down(i + 1, r) == j + 1;
    assert ScanAgrees(xs, ys, r, i + 1, rest, mm, mm2) by {
      PopInv(xs, ys, r, i, st, m, m2);
      ScanRemoveFrom(xs, ys, r, i + 1, rest, mm, mm2);
    }
    ScanAgreesPop(xs, ys, r, i, st, m, m2);
  }

  /** If the scans agree after popping, they agree on the `]` that pops. */
  lemma ScanAgreesPop(xs: seq<Byte>, ys: seq<Byte>, r: nat, i: nat, st: seq<nat>, m: map<nat, nat>, m2: map<nat, nat>)
    requires i < |xs| && xs[i] == OpClose && st != []
    requires Down(i, r) < |ys| && ys[Down(i, r)] == OpClose && Down(i + 1, r) == Down(i, r) + 1
    requires var o := st[|st| - 1];
      ScanAgrees(xs, ys, r, i + 1, st[..|st| - 1], m[o := i][i := o],
                 m2[Down(o, r) := Down(i, r)][Down(i, r) := Down(o, r)])
    ensures ScanAgrees(xs, ys, r, i, st, m, m2)
  {
    DownAllPop(st, r);
    ScanFromClose(xs, i, st, m);
    ScanFromClose(ys, Down(i, r), DownAll(st, r), m2);
  }

  /** Deleting a non-bracket element leaves bracket-map construction succeeding or failing alike, and a
      successful map keeps every pair, shifted past the deleted position. */
  lemma ScanRemove(xs: seq<Byte>, ys: seq<Byte>, r: nat)
    requires r < |xs| && !IsBracket(xs[r]) && ys == xs[..r] + xs[r + 1..]
    ensures Scan(xs).Matched? == Scan(ys).Matched?
    ensures Scan(xs).Matched? ==> MapCorr(Scan(xs).pairs, Scan(ys).pairs, r)
  {
    assert DownAll([], r) == [];
    ScanRemoveFrom(xs, ys, r, 0, [], map[], map[]);
    assert ScanAgrees(xs, ys, r, 0, [], map[], map[]);
  }

  // ----- One machine step on both sides of an edit -----

  /** The state of the edited program that stands for `s`. */
  function Moved(s: State, k: nat): State {
    s.(ip := Down(s.ip, k))
  }

  /** An instruction away from the edit behaves the same in both programs, and so does a jump, as long
      as the partner position is not the edit position. */
  lemma StepCorr(P: seq<Op>, Q: seq<Op>, bmP: map<nat, nat>, bmQ: map<nat, nat>, k: nat, s: State)
    requires s.ip < |P| && s.ip != k && Down(s.ip, k) < |Q| && Q[Down(s.ip, k)] == P[s.ip]
    requires IsBracket(P[s.ip].instr) ==>
      s.ip in bmP && bmP[s.ip] != k && Down(s.ip, k) in bmQ && bmQ[Down(s.ip, k)] == Down(bmP[s.ip], k)
    ensures Step(P, bmP, s).Fail? ==> Step(Q, bmQ, Moved(s, k)) == Step(P, bmP, s)
    ensures Step(P, bmP, s).Next? ==> Step(Q, bmQ, Moved(s, k)) == Next(Moved(Step(P, bmP, s).next, k))
  {
  }

  /** Running two runs of the same mergeable instruction, counts `a` then `b`, is one run of count
      `a + b`: the pointer moves by the sum (and underflows exactly when the sum exceeds it), and the
      cell changes by `(a + b) mod 256`. */
  lemma MergedStep(P: seq<Op>, Q: seq<Op>, bmP: map<nat, nat>, bmQ: map<nat, nat>, k: nat, s: State)
    requires k + 1 < |P| && IsMergeable(P[k].instr) && P[k + 1].instr == P[k].instr
    requires k < |Q| && Q[k] == Op(P[k].instr, P[k].count + P[k + 1].count)
    requires s.ip == k
    ensures Step(P, bmP, s).Fail? ==> Step(Q, bmQ, Moved(s, k)) == Step(P, bmP, s)
    ensures Step(P, bmP, s).Next? ==>
      var s1 := Step(P, bmP, s).next;
      s1.ip == k + 1 && s1.output == s.output &&
      (Step(P, bmP, s1).Fail? ==> Step(Q, bmQ, Moved(s, k)) == Step(P, bmP, s1)) &&
      (Step(P, bmP, s1).Next? ==>
        Step(P, bmP, s1).next.ip == k + 2 && Step(Q, bmQ, Moved(s, k)) == Next(Moved(Step(P, bmP, s1).next, k)))
  {
    var x, a, b := P[k].instr, P[k].count, P[k + 1].count;
    if (x == OpInc || x == OpDec) && s.mp < |s.memory| {
      var v := s.memory[s.mp];
      if x == OpInc {
        WrappingAddCompose(v, a, b);
      } else {
        WrappingSubCompose(v, a, b);
      }
    }
  }

  /** Reducing one summand modulo 256 first does not change the sum modulo 256. */
  lemma ModAddLeft(u: int, w: int)
    ensures (u % 256 + w) % 256 == (u + w) % 256
  {
    var q := u / 256;
    assert u == 256 * q + u % 256;
  }

  lemma ModSubLeft(u: int, w: int)
    ensures (w - u % 256) % 256 == (w - u) % 256
  {
    var q := u / 256;
    assert u == 256 * q + u % 256;
  }

  /** Adding `a mod 256` and then `b mod 256` with wrap-around adds `(a + b) mod 256`. */
  lemma WrappingAddCompose(v: Byte, a: nat, b: nat)
    ensures WrappingAdd(WrappingAdd(v, a % 256), b % 256) == WrappingAdd(v, (a + b) % 256)
  {
    ModAddLeft(v + a % 256, b % 256);
    ModAddLeft(a, v + b % 256);
    ModAddLeft(b, a + v);
    ModAddLeft(a + b, v);
  }

  /** Subtracting `a mod 256` and then `b mod 256` with wrap-around subtracts `(a + b) mod 256`. */
  lemma WrappingSubCompose(v: Byte, a: nat, b: nat)
    ensures WrappingSub(WrappingSub(v, a % 256), b % 256) == WrappingSub(v, (a + b) % 256)
  {
    ModAddLeft(v - a % 256, -(b % 256));
    ModSubLeft(a, v - b % 256);
    ModSubLeft(b, v - a);
    ModSubLeft(a + b, v);
  }

  // ----- Dropping a comment -----

  /** `Q` is `P` without the comment at position `k`, and the bracket maps correspond. */
  ghost predicate DropSetup(P: seq<Op>, Q: seq<Op>, k: nat, bmP: map<nat, nat>, bmQ: map<nat, nat>) {
    k < |P| && !IsInstruction(P[k].instr) && Q == P[..k] + P[k + 1..] &&
    PerfectMatching(Instrs(P), bmP) && MapCorr(bmP, bmQ, k)
  }

  lemma DropStepCorr(P: seq<Op>, Q: seq<Op>, k: nat, bmP: map<nat, nat>, bmQ: map<nat, nat>, s: State)
    requires DropSetup(P, Q, k, bmP, bmQ) && s.ip < |P| && s.ip != k
    ensures Down(s.ip, k) < |Q|
    ensures Step(P, bmP, s).Fail? ==> Step(Q, bmQ, Moved(s, k)) == Step(P, bmP, s)
    ensures Step(P, bmP, s).Next? ==> Step(Q, bmQ, Moved(s, k)) == Next(Moved(Step(P, bmP, s).next, k))
  {
    var i := s.ip;
    assert Instrs(P)[i] == P[i].instr;
    if IsBracket(P[i].instr) {
      assert i in bmP;
      assert bmP[i] in bmP;
      assert IsBracket(Instrs(P)[bmP[i]]);
    }
    StepCorr(P, Q, bmP, bmQ, k, s);
  }

  lemma {:induction false} DropForward(P: seq<Op>, Q: seq<Op>, k: nat, bmP: map<nat, nat>, bmQ: map<nat, nat>,
                                       s: State, n: nat)
    requires DropSetup(P, Q, k, bmP, bmQ)
    requires Exec(P, bmP, s, n) != OutOfFuel
    ensures Exec(Q, bmQ, Moved(s, k), n) == Exec(P, bmP, s, n)
    decreases n, 1
  {
    if s.ip >= |P| {
      ExecHalted(P, bmP, s, n);
      ExecHalted(Q, bmQ, Moved(s, k), n);
    } else {
      assert n > 0;
      if s.ip == k {
        DropForwardAt(P, Q, k, bmP, bmQ, s, n);
      } else {
        DropForwardOrd(P, Q, k, bmP, bmQ, s, n);
      }
    }
  }

  /** On the comment itself `P` spends a step that `Q` does not need. */
  lemma {:induction false} DropForwardAt(P: seq<Op>, Q: seq<Op>, k: nat, bmP: map<nat, nat>, bmQ: map<nat, nat>,
                                         s: State, n: nat)
    requires DropSetup(P, Q, k, bmP, bmQ) && s.ip == k && n > 0
    requires Exec(P, bmP, s, n) != OutOfFuel
    ensures Exec(Q, bmQ, Moved(s, k), n) == Exec(P, bmP, s, n)
    decreases n, 0
  {
    var s1 := s.(ip := k + 1);
    assert Step(P, bmP, s) == Next(s1);
    ExecNext(P, bmP, s, n, s1);
    assert Moved(s1, k) == Moved(s, k);
    DropForward(P, Q, k, bmP, bmQ, s1, n - 1);
    ExecMonotone(Q, bmQ, Moved(s, k), n - 1, n);
  }

  lemma {:induction false} DropForwardOrd(P: seq<Op>, Q: seq<Op>, k: nat, bmP: map<nat, nat>, bmQ: map<nat, nat>,
                                          s: State, n: nat)
    requires DropSetup(P, Q, k, bmP, bmQ) && s.ip < |P| && s.ip != k && n > 0
    requires Exec(P, bmP, s, n) != OutOfFuel
    ensures Exec(Q, bmQ, Moved(s, k), n) == Exec(P, bmP, s, n)
    decreases n, 0
  {
    DropStepCorr(P, Q, k, bmP, bmQ, s);
    if Step(P, bmP, s).Next? {
      var s' := Step(P, bmP, s).next;
      assert Exec(P, bmP, s', n - 1) != OutOfFuel by {
        ExecNext(P, bmP, s, n, s');
      }
      DropForward(P, Q, k, bmP, bmQ, s', n - 1);
    }
    ExecLockstep(P, bmP, s, n, Q, bmQ, Moved(s, k), n);
  }

  lemma {:induction false} DropBackward(P: seq<Op>, Q: seq<Op>, k: nat, bmP: map<nat, nat>, bmQ: map<nat, nat>,
                                        s: State, n: nat)
    requires DropSetup(P, Q, k, bmP, bmQ)
    requires Exec(Q, bmQ, Moved(s, k), n) != OutOfFuel
    ensures Exec(P, bmP, s, 2 * n + 1) == Exec(Q, bmQ, Moved(s, k), n)
    decreases n, 2
  {
    if s.ip >= |P| {
      ExecHalted(P, bmP, s, 2 * n + 1);
      ExecHalted(Q, bmQ, Moved(s, k), n);
    } else if Down(s.ip, k) >= |Q| {
      // the comment is the last instruction and `s` is on it
      assert s.ip == k && k + 1 == |P|;
      var s1 := s.(ip := k + 1);
      assert Step(P, bmP, s) == Next(s1);
      ExecNext(P, bmP, s, 2 * n + 1, s1);
      assert 2 * n + 1 - 1 == 2 * n;
      ExecHalted(P, bmP, s1, 2 * n);
      ExecHalted(Q, bmQ, Moved(s, k), n);
    } else {
      assert n > 0;
      if s.ip == k {
        DropBackwardAt(P, Q, k, bmP, bmQ, s, n);
      } else {
        DropBackwardOrd(P, Q, k, bmP, bmQ, s, n);
        ExecMonotone(P, bmP, s, 2 * n, 2 * n + 1);
      }
    }
  }

  lemma {:induction false} DropBackwardAt(P: seq<Op>, Q: seq<Op>, k: nat, bmP: map<nat, nat>, bmQ: map<nat, nat>,
                                          s: State, n: nat)
    requires DropSetup(P, Q, k, bmP, bmQ) && s.ip == k && k + 1 < |P| && n > 0
    requires Exec(Q, bmQ, Moved(s, k), n) != OutOfFuel
    ensures Exec(P, bmP, s, 2 * n + 1) == Exec(Q, bmQ, Moved(s, k), n)
    decreases n, 1
  {
    var s1 := s.(ip := k + 1);
    assert Step(P, bmP, s) == Next(s1);
    ExecNext(P, bmP, s, 2 * n + 1, s1);
    assert Moved(s1, k) == Moved(s, k) && 2 * n + 1 - 1 == 2 * n;
    DropBackwardOrd(P, Q, k, bmP, bmQ, s1, n);
  }

  /** Away from the comment both programs take the same step; `P` needs at most two steps per step of
      `Q`. */
  lemma {:induction false} DropBackwardOrd(P: seq<Op>, Q: seq<Op>, k: nat, bmP: map<nat, nat>, bmQ: map<nat, nat>,
                                           s: State, n: nat)
    requires DropSetup(P, Q, k, bmP, bmQ) && s.ip < |P| && s.ip != k && n > 0
    requires Exec(Q, bmQ, Moved(s, k), n) != OutOfFuel
    ensures Exec(P, bmP, s, 2 * n) == Exec(Q, bmQ, Moved(s, k), n)
    decreases n, 0
  {
    DropStepCorr(P, Q, k, bmP, bmQ, s);
    if Step(P, bmP, s).Next? {
      var s' := Step(P, bmP, s).next;
      ExecNext(Q, bmQ, Moved(s, k), n, Moved(s', k));
      DropBackward(P, Q, k, bmP, bmQ, s', n - 1);
      assert 2 * (n - 1) + 1 == 2 * n - 1;
    }
    ExecLockstep(P, bmP, s, 2 * n, Q, bmQ, Moved(s, k), n);
  }

  // ----- Merging two runs -----

  /** `Q` is `P` with the runs at `k` and `k + 1` (the same mergeable instruction) merged into one, and
      the bracket maps correspond. */
  ghost predicate MergeSetup(P: seq<Op>, Q: seq<Op>, k: nat, bmP: map<nat, nat>, bmQ: map<nat, nat>) {
    k + 1 < |P| && IsMergeable(P[k].instr) && P[k + 1].instr == P[k].instr &&
    Q == P[..k] + [Op(P[k].instr, P[k].count + P[k + 1].count)] + P[k + 2..] &&
    PerfectMatching(Instrs(P), bmP) && MapCorr(bmP, bmQ, k + 1)
  }

  /** Away from the merged runs, the instruction at `i` in `P` sits at `Down(i, k)` in `Q`. */
  lemma MergeIndex(P: seq<Op>, Q: seq<Op>, k: nat, x: Op, i: nat)
    requires k + 1 < |P| && Q == P[..k] + [x] + P[k + 2..] && i < |P| && i != k && i != k + 1
    ensures Down(i, k) < |Q| && Q[Down(i, k)] == P[i]
  {
    if i > k + 1 {
      assert Q[i - 1] == P[k + 2..][i - k - 2];
    }
  }

  /** A bracket away from the merged runs has its partner away from them too, in both maps. */
  lemma MergeBracket(P: seq<Op>, Q: seq<Op>, k: nat, bmP: map<nat, nat>, bmQ: map<nat, nat>, i: nat)
    requires MergeSetup(P, Q, k, bmP, bmQ) && i < |P| && i != k && i != k + 1 && IsBracket(P[i].instr)
    ensures i in bmP && bmP[i] != k && bmP[i] != k + 1
    ensures Down(i, k) in bmQ && bmQ[Down(i, k)] == Down(bmP[i], k)
  {
    assert Instrs(P)[i] == P[i].instr;
    assert i in bmP;
    var j := bmP[i];
    assert j in bmP;
    assert IsBracket(Instrs(P)[j]);
    assert Down(i, k + 1) == Down(i, k) && Down(j, k + 1) == Down(j, k);
  }

  lemma MergeStepCorr(P: seq<Op>, Q: seq<Op>, k: nat, bmP: map<nat, nat>, bmQ: map<nat, nat>, s: State)
    requires MergeSetup(P, Q, k, bmP, bmQ) && s.ip < |P| && s.ip != k && s.ip != k + 1
    ensures Down(s.ip, k) < |Q|
    ensures Step(P, bmP, s).Fail? ==> Step(Q, bmQ, Moved(s, k)) == Step(P, bmP, s)
    ensures Step(P, bmP, s).Next? ==>
      Step(P, bmP, s).next.ip != k + 1 &&
      Step(Q, bmQ, Moved(s, k)) == Next(Moved(Step(P, bmP, s).next, k))
  {
    MergeIndex(P, Q, k, Op(P[k].instr, P[k].count + P[k + 1].count), s.ip);
    if IsBracket(P[s.ip].instr) {
      MergeBracket(P, Q, k, bmP, bmQ, s.ip);
    }
    StepLands(P, bmP, s);
    StepCorr(P, Q, bmP, bmQ, k, s);
  }

  lemma {:induction false} MergeForward(P: seq<Op>, Q: seq<Op>, k: nat, bmP: map<nat, nat>, bmQ: map<nat, nat>,
                                        s: State, n: nat)
    requires MergeSetup(P, Q, k, bmP, bmQ) && s.ip != k + 1
    requires Exec(P, bmP, s, n) != OutOfFuel
    ensures Exec(Q, bmQ, Moved(s, k), n) == Exec(P, bmP, s, n)
    decreases n, 1
  {
    if s.ip >= |P| {
      ExecHalted(P, bmP, s, n);
      ExecHalted(Q, bmQ, Moved(s, k), n);
    } else {
      assert n > 0;
      if s.ip == k {
        MergeForwardAt(P, Q, k, bmP, bmQ, s, n);
      } else {
        MergeForwardOrd(P, Q, k, bmP, bmQ, s, n);
      }
    }
  }

  /** On the first of the two runs `P` spends two steps where `Q` spends one. */
  lemma {:induction false} MergeForwardAt(P: seq<Op>, Q: seq<Op>, k: nat, bmP: map<nat, nat>, bmQ: map<nat, nat>,
                                          s: State, n: nat)
    requires MergeSetup(P, Q, k, bmP, bmQ) && s.ip == k && n > 0
    requires Exec(P, bmP, s, n) != OutOfFuel
    ensures Exec(Q, bmQ, Moved(s, k), n) == Exec(P, bmP, s, n)
    decreases n, 0
  {
    assert k < |Q| && Q[k] == Op(P[k].instr, P[k].count + P[k + 1].count);
    MergedStep(P, Q, bmP, bmQ, k, s);
    match Step(P, bmP, s)
    case Fail(f) =>
      ExecFail(P, bmP, s, n, f);
      ExecFail(Q, bmQ, Moved(s, k), n, f);
    case Next(s1) =>
      ExecNext(P, bmP, s, n, s1);
      assert n - 1 > 0;
      match Step(P, bmP, s1)
      case Fail(f) =>
        ExecFail(P, bmP, s1, n - 1, f);
        ExecFail(Q, bmQ, Moved(s, k), n, f);
      case Next(s2) =>
        ExecNext(P, bmP, s1, n - 1, s2);
        ExecNext(Q, bmQ, Moved(s, k), n, Moved(s2, k));
        assert n - 1 - 1 == n - 2;
        MergeForward(P, Q, k, bmP, bmQ, s2, n - 2);
        ExecMonotone(Q, bmQ, Moved(s2, k), n - 2, n - 1);
  }

  lemma {:induction false} MergeForwardOrd(P: seq<Op>, Q: seq<Op>, k: nat, bmP: map<nat, nat>, bmQ: map<nat, nat>,
                                           s: State, n: nat)
    requires MergeSetup(P, Q, k, bmP, bmQ) && s.ip < |P| && s.ip != k && s.ip != k + 1 && n > 0
    requires Exec(P, bmP, s, n) != OutOfFuel
    ensures Exec(Q, bmQ, Moved(s, k), n) == Exec(P, bmP, s, n)
    decreases n, 0
  {
    MergeStepCorr(P, Q, k, bmP, bmQ, s);
    if Step(P, bmP, s).Next? {
      var s' := Step(P, bmP, s).next;
      assert Exec(P, bmP, s', n - 1) != OutOfFuel by {
        ExecNext(P, bmP, s, n, s');
      }
      MergeForward(P, Q, k, bmP, bmQ, s', n - 1);
    }
    ExecLockstep(P, bmP, s, n, Q, bmQ, Moved(s, k), n);
  }

  lemma {:induction false} MergeBackward(P: seq<Op>, Q: seq<Op>, k: nat, bmP: map<nat, nat>, bmQ: map<nat, nat>,
                                         s: State, n: nat)
    requires MergeSetup(P, Q, k, bmP, bmQ) && s.ip != k + 1
    requires Exec(Q, bmQ, Moved(s, k), n) != OutOfFuel
    ensures Exec(P, bmP, s, 2 * n) == Exec(Q, bmQ, Moved(s, k), n)
    decreases n, 1
  {
    if s.ip >= |P| {
      ExecHalted(P, bmP, s, 2 * n);
      ExecHalted(Q, bmQ, Moved(s, k), n);
    } else {
      assert Down(s.ip, k) < |Q|;
      assert n > 0;
      if s.ip == k {
        MergeBackwardAt(P, Q, k, bmP, bmQ, s, n);
      } else {
        MergeBackwardOrd(P, Q, k, bmP, bmQ, s, n);
      }
    }
  }

  lemma {:induction false} MergeBackwardAt(P: seq<Op>, Q: seq<Op>, k: nat, bmP: map<nat, nat>, bmQ: map<nat, nat>,
                                           s: State, n: nat)
    requires MergeSetup(P, Q, k, bmP, bmQ) && s.ip == k && n > 0
    requires Exec(Q, bmQ, Moved(s, k), n) != OutOfFuel
    ensures Exec(P, bmP, s, 2 * n) == Exec(Q, bmQ, Moved(s, k), n)
    decreases n, 0
  {
    assert k < |Q| && Q[k] == Op(P[k].instr, P[k].count + P[k + 1].count);
    MergedStep(P, Q, bmP, bmQ, k, s);
    match Step(P, bmP, s)
    case Fail(f) =>
      ExecFail(P, bmP, s, 2 * n, f);
      ExecFail(Q, bmQ, Moved(s, k), n, f);
    case Next(s1) =>
      ExecNext(P, bmP, s, 2 * n, s1);
      match Step(P, bmP, s1)
      case Fail(f) =>
        ExecFail(P, bmP, s1, 2 * n - 1, f);
        ExecFail(Q, bmQ, Moved(s, k), n, f);
      case Next(s2) =>
        ExecNext(P, bmP, s1, 2 * n - 1, s2);
        ExecNext(Q, bmQ, Moved(s, k), n, Moved(s2, k));
        MergeBackward(P, Q, k, bmP, bmQ, s2, n - 1);
        assert 2 * n - 1 - 1 == 2 * (n - 1);
  }

  lemma {:induction false} MergeBackwardOrd(P: seq<Op>, Q: seq<Op>, k: nat, bmP: map<nat, nat>, bmQ: map<nat, nat>,
                                            s: State, n: nat)
    requires MergeSetup(P, Q, k, bmP, bmQ) && s.ip < |P| && s.ip != k && s.ip != k + 1 && n > 0
    requires Exec(Q, bmQ, Moved(s, k), n) != OutOfFuel
    ensures Exec(P, bmP, s, 2 * n) == Exec(Q, bmQ, Moved(s, k), n)
    decreases n, 0
  {
    MergeStepCorr(P, Q, k, bmP, bmQ, s);
    var t := Moved(s, k);
    match Step(P, bmP, s)
    case Fail(f) =>
      ExecFail(P, bmP, s, 2 * n, f);
      ExecFail(Q, bmQ, t, n, f);
    case Next(s') =>
      ExecNext(P, bmP, s, 2 * n, s');
      ExecNext(Q, bmQ, t, n, Moved(s', k));
      MergeBackward(P, Q, k, bmP, bmQ, s', n - 1);
      ExecMonotone(P, bmP, s', 2 * (n - 1), 2 * n - 1);
  }

  // ----- Whole programs -----

  /** `Q` ends every run the way `P` does: whatever `P` finishes within `n` steps `Q` finishes the same
      way within `n` steps, and whatever `Q` finishes, `P` finishes the same way given enough steps. */
  ghost predicate SameBehaviour(P: seq<Op>, Q: seq<Op>) {
    (forall lines: seq<seq<Byte>>, n: nat {:trigger Run(Q, lines, n)} ::
       Run(P, lines, n) != OutOfFuel ==> Run(Q, lines, n) == Run(P, lines, n)) &&
    (forall lines: seq<seq<Byte>>, n: nat {:trigger Run(Q, lines, n)} ::
       Run(Q, lines, n) != OutOfFuel ==> exists m: nat :: Run(P, lines, m) == Run(Q, lines, n))
  }

  lemma SameBehaviourTrans(P: seq<Op>, Q: seq<Op>, R: seq<Op>)
    requires SameBehaviour(P, Q) && SameBehaviour(Q, R)
    ensures SameBehaviour(P, R)
  {
    forall lines: seq<seq<Byte>>, n: nat | Run(R, lines, n) != OutOfFuel
      ensures exists m: nat :: Run(P, lines, m) == Run(R, lines, n)
    {
      var m :| Run(Q, lines, m) == Run(R, lines, n);
      var m' :| Run(P, lines, m') == Run(Q, lines, m);
    }
  }

  lemma SameBehaviourRefl(P: seq<Op>)
    ensures SameBehaviour(P, P)
  {
    forall lines: seq<seq<Byte>>, n: nat | Run(P, lines, n) != OutOfFuel
      ensures exists m: nat :: Run(P, lines, m) == Run(P, lines, n)
    {
    }
  }

  /** Deleting a comment does not change how the program ends. */
  lemma DropPreserves(P: seq<Op>, k: nat)
    requires k < |P| && !IsInstruction(P[k].instr)
    ensures SameBehaviour(P, P[..k] + P[k + 1..])
  {
    var Q := P[..k] + P[k + 1..];
    var xs, ys := Instrs(P), Instrs(Q);
    assert ys == xs[..k] + xs[k + 1..];
    ScanRemove(xs, ys, k);
    ScanCorrect(xs);
    if Scan(xs).Matched? {
      var bmP, bmQ := Scan(xs).pairs, Scan(ys).pairs;
      assert DropSetup(P, Q, k, bmP, bmQ);
      forall lines: seq<seq<Byte>>, n: nat | Run(P, lines, n) != OutOfFuel
        ensures Run(Q, lines, n) == Run(P, lines, n)
      {
        assert Moved(Initial(lines), k) == Initial(lines);
        DropForward(P, Q, k, bmP, bmQ, Initial(lines), n);
      }
      forall lines: seq<seq<Byte>>, n: nat | Run(Q, lines, n) != OutOfFuel
        ensures exists m: nat :: Run(P, lines, m) == Run(Q, lines, n)
      {
        assert Moved(Initial(lines), k) == Initial(lines);
        DropBackward(P, Q, k, bmP, bmQ, Initial(lines), n);
        assert Run(P, lines, 2 * n + 1) == Run(Q, lines, n);
      }
    } else {
      forall lines: seq<seq<Byte>>, n: nat ensures Run(P, lines, n) == UnbalancedBrackets == Run(Q, lines, n) { }
    }
  }

  /** Merging two neighbouring runs of the same mergeable instruction does not change how the program
      ends. */
  lemma MergePreserves(P: seq<Op>, k: nat)
    requires k + 1 < |P| && IsMergeable(P[k].instr) && P[k + 1].instr == P[k].instr
    ensures SameBehaviour(P, P[..k] + [Op(P[k].instr, P[k].count + P[k + 1].count)] + P[k + 2..])
  {
    var Q := P[..k] + [Op(P[k].instr, P[k].count + P[k + 1].count)] + P[k + 2..];
    var xs, ys := Instrs(P), Instrs(Q);
    assert ys == xs[..k + 1] + xs[k + 2..];
    ScanRemove(xs, ys, k + 1);
    ScanCorrect(xs);
    if Scan(xs).Matched? {
      var bmP, bmQ := Scan(xs).pairs, Scan(ys).pairs;
      assert MergeSetup(P, Q, k, bmP, bmQ);
      forall lines: seq<seq<Byte>>, n: nat | Run(P, lines, n) != OutOfFuel
        ensures Run(Q, lines, n) == Run(P, lines, n)
      {
        assert Moved(Initial(lines), k) == Initial(lines);
        MergeForward(P, Q, k, bmP, bmQ, Initial(lines), n);
      }
      forall lines: seq<seq<Byte>>, n: nat | Run(Q, lines, n) != OutOfFuel
        ensures exists m: nat :: Run(P, lines, m) == Run(Q, lines, n)
      {
        assert Moved(Initial(lines), k) == Initial(lines);
        MergeBackward(P, Q, k, bmP, bmQ, Initial(lines), n);
        assert Run(P, lines, 2 * n) == Run(Q, lines, n);
      }
    } else {
      forall lines: seq<seq<Byte>>, n: nat ensures Run(P, lines, n) == UnbalancedBrackets == Run(Q, lines, n) { }
    }
  }

  /** The raw program (one run per byte) and its compression behave alike, whatever instructions
      follow them. */
  lemma {:induction false} CompressPreserves(p: seq<Byte>, suffix: seq<Op>)
    ensures SameBehaviour(Unit(p) + suffix, Compress(p) + suffix)
    decreases |p|
  {
    if p == [] {
      assert Unit(p) + suffix == suffix == Compress(p) + suffix;
      SameBehaviourRefl(suffix);
    } else {
      var q, b := p[..|p| - 1], p[|p| - 1];
      var one := [Op(b, 1)];
      assert Unit(p) + suffix == Unit(q) + (one + suffix);
      CompressPreserves(q, one + suffix);
      PushPreserves(Compress(q), b, suffix);
      SameBehaviourTrans(Unit(p) + suffix, Compress(q) + (one + suffix), Compress(p) + suffix);
    }
  }

  /** A unit run of byte `b` behind the runs `r` behaves like `b` pushed onto them, or like nothing
      when `b` is a comment byte. */
  lemma PushPreserves(r: seq<Op>, b: Byte, suffix: seq<Op>)
    ensures SameBehaviour(r + ([Op(b, 1)] + suffix), (if IsInstruction(b) then Push(r, b) else r) + suffix)
  {
    var R := r + ([Op(b, 1)] + suffix);
    if !IsInstruction(b) {
      DropPreserves(R, |r|);
      assert R[..|r|] + R[|r| + 1..] == r + suffix;
    } else if r != [] && IsMergeable(b) && r[|r| - 1].instr == b {
      var k := |r| - 1;
      MergePreserves(R, k);
      assert R[..k] + [Op(R[k].instr, R[k].count + R[k + 1].count)] + R[k + 2..] == Push(r, b) + suffix;
    } else {
      assert R == Push(r, b) + suffix;
      SameBehaviourRefl(R);
    }
  }

  /** `optimized::run` and `basic::run` agree on every program and input: whenever the basic interpreter
      finishes within `n` steps (halting, panicking or rejecting the brackets), the optimized one
      finishes identically within `n` steps; and whenever the optimized one finishes, the basic one
      finishes identically given enough steps. Output bytes and the final tape are equal. */
  lemma OptimizedMatchesBasic(program: seq<Byte>, lines: seq<seq<Byte>>, n: nat)
    ensures BasicOutcome(program, lines, n) != OutOfFuel ==>
      OptimizedOutcome(program, lines, n) == BasicOutcome(program, lines, n)
    ensures OptimizedOutcome(program, lines, n) != OutOfFuel ==>
      exists m: nat :: BasicOutcome(program, lines, m) == OptimizedOutcome(program, lines, n)
  {
    if program != [] {
      CompressPreserves(program, []);
      assert Unit(program) + [] == Unit(program) && Compress(program) + [] == Compress(program);
      if OptimizedOutcome(program, lines, n) != OutOfFuel {
        var m :| Run(Unit(program), lines, m) == Run(Compress(program), lines, n);
        assert BasicOutcome(program, lines, m) == OptimizedOutcome(program, lines, n);
      }
    } else {
      assert BasicOutcome(program, lines, 0) == OptimizedOutcome(program, lines, n);
    }
  }
}
