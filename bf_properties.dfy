/** Further properties of the interpreters of src/bin/brainfuck.rs: what `.` writes, how `,` consumes
    its input, where the jumps land, that a successful bracket map never leaves a jump without a
    target, wrap-around cell arithmetic, and programs without instructions. */
module BfProperties {
  import opened BfSyntax
  import opened BfBrackets
  import opened BfCompress
  import opened BfMachine
  import opened BfInterpreters
  import opened BfEquivalence

  // ----- Output -----

  /** Every byte `.` writes is below 128. */
  ghost predicate Ascii(out: seq<Byte>) {
    forall i :: 0 <= i < |out| ==> out[i] < 128
  }

  /** One step writes at most one byte, below 128, and never changes what was written before. */
  lemma StepOutput(prog: seq<Op>, bm: map<nat, nat>, s: State)
    requires s.ip < |prog|
    ensures Step(prog, bm, s).Next? ==>
      var o := Step(prog, bm, s).next.output;
      s.output <= o && |o| <= |s.output| + 1 && forall i :: |s.output| <= i < |o| ==> o[i] < 128
  {
  }

  /** A run only ever appends bytes below 128 to what was written when it started. */
  lemma {:induction false} ExecOutput(prog: seq<Op>, bm: map<nat, nat>, s: State, n: nat)
    ensures Exec(prog, bm, s, n).Halted? || Exec(prog, bm, s, n).Faulted? ==>
      var o := Exec(prog, bm, s, n).output;
      s.output <= o && forall i :: |s.output| <= i < |o| ==> o[i] < 128
    decreases n
  {
    if s.ip < |prog| && n > 0 {
      StepOutput(prog, bm, s);
      match Step(prog, bm, s)
      case Fail(_) =>
      case Next(s') =>
        ExecOutput(prog, bm, s', n - 1);
    }
  }

  /** Both interpreters write only bytes below 128, whether they halt or panic. */
  lemma OutputIsAscii(program: seq<Byte>, lines: seq<seq<Byte>>, n: nat)
    ensures BasicOutcome(program, lines, n).Halted? || BasicOutcome(program, lines, n).Faulted? ==>
      Ascii(BasicOutcome(program, lines, n).output)
    ensures OptimizedOutcome(program, lines, n).Halted? || OptimizedOutcome(program, lines, n).Faulted? ==>
      Ascii(OptimizedOutcome(program, lines, n).output)
  {
    if program != [] {
      if Scan(Instrs(Unit(program))).Matched? {
        ExecOutput(Unit(program), Scan(Instrs(Unit(program))).pairs, Initial(lines), n);
      }
      if Scan(Instrs(Compress(program))).Matched? {
        ExecOutput(Compress(program), Scan(Instrs(Compress(program))).pairs, Initial(lines), n);
      }
    }
  }

  // ----- Input -----

  /** The lines not read yet, joined. */
  function Concat(lines: seq<seq<Byte>>): seq<Byte> {
    if lines == [] then [] else lines[0] + Concat(lines[1..])
  }

  /** All input bytes `,` can still see: the buffered rest of the current line, then the lines to come. */
  function Pending(s: State): seq<Byte> {
    s.buffer + Concat(s.lines)
  }

  /** `,` stores the next pending input byte in the current cell and consumes exactly that byte. It
      panics for want of input exactly when the buffer is empty and there is no next line, or the next
      line is empty. */
  lemma InputInOrder(prog: seq<Op>, bm: map<nat, nat>, s: State)
    requires s.ip < |prog| && prog[s.ip].instr == OpIn
    ensures Step(prog, bm, s) == Fail(InputExhausted) <==> s.buffer == [] && (s.lines == [] || s.lines[0] == [])
    ensures Step(prog, bm, s).Next? ==>
      var s' := Step(prog, bm, s).next;
      Pending(s) != [] && s.mp < |s.memory| &&
      s'.memory == s.memory[s.mp := Pending(s)[0]] && Pending(s') == Pending(s)[1..] &&
      s'.mp == s.mp && s'.ip == s.ip + 1 && s'.output == s.output
  {
    if s.buffer == [] && s.lines != [] {
      assert Concat(s.lines) == s.lines[0] + Concat(s.lines[1..]);
      if s.lines[0] != [] {
        assert Pending(s)[1..] == s.lines[0][1..] + Concat(s.lines[1..]);
      }
    }
  }

  // ----- Jumps -----

  /** With a perfect matching, `[` always has its `]` later in the program; on a zero cell it continues
      just past that `]`, otherwise with the next instruction. */
  lemma OpenJumpsPastPartner(prog: seq<Op>, bm: map<nat, nat>, s: State)
    requires PerfectMatching(Instrs(prog), bm)
    requires s.ip < |prog| && prog[s.ip].instr == OpOpen && s.mp < |s.memory|
    ensures s.ip in bm && s.ip < bm[s.ip] < |prog| && prog[bm[s.ip]].instr == OpClose
    ensures Step(prog, bm, s) == Next(s.(ip := if s.memory[s.mp] == 0 then bm[s.ip] + 1 else s.ip + 1))
  {
    assert Instrs(prog)[s.ip] == OpOpen;
    assert s.ip in bm;
    assert bm[s.ip] in bm;
  }

  /** With a perfect matching, `]` always has its `[` earlier in the program; on a non-zero cell it
      continues just past that `[`, otherwise with the next instruction. */
  lemma CloseJumpsPastPartner(prog: seq<Op>, bm: map<nat, nat>, s: State)
    requires PerfectMatching(Instrs(prog), bm)
    requires s.ip < |prog| && prog[s.ip].instr == OpClose && s.mp < |s.memory|
    ensures s.ip in bm && bm[s.ip] < s.ip && prog[bm[s.ip]].instr == OpOpen
    ensures Step(prog, bm, s) == Next(s.(ip := if s.memory[s.mp] != 0 then bm[s.ip] + 1 else s.ip + 1))
  {
    assert Instrs(prog)[s.ip] == OpClose;
    assert s.ip in bm;
    assert bm[s.ip] in bm;
  }

  lemma StepNoMissingMatch(prog: seq<Op>, bm: map<nat, nat>, s: State)
    requires PerfectMatching(Instrs(prog), bm) && s.ip < |prog|
    ensures Step(prog, bm, s) != Fail(MissingMatch)
  {
    assert Instrs(prog)[s.ip] == prog[s.ip].instr;
  }

  /** With a perfect matching no jump ever misses its target. */
  lemma {:induction false} ExecNoMissingMatch(prog: seq<Op>, bm: map<nat, nat>, s: State, n: nat)
    requires PerfectMatching(Instrs(prog), bm)
    ensures Exec(prog, bm, s, n).Faulted? ==> Exec(prog, bm, s, n).fault != MissingMatch
    decreases n
  {
    if s.ip < |prog| && n > 0 {
      StepNoMissingMatch(prog, bm, s);
      match Step(prog, bm, s)
      case Fail(_) =>
      case Next(s') => ExecNoMissingMatch(prog, bm, s', n - 1);
    }
  }

  /** The `unwrap` on a bracket-map lookup in either interpreter never panics: the map built before the
      run has an entry for every bracket. */
  lemma NeverMissingMatch(program: seq<Byte>, lines: seq<seq<Byte>>, n: nat)
    ensures BasicOutcome(program, lines, n).Faulted? ==> BasicOutcome(program, lines, n).fault != MissingMatch
    ensures OptimizedOutcome(program, lines, n).Faulted? ==> OptimizedOutcome(program, lines, n).fault != MissingMatch
  {
    if program != [] {
      ScanCorrect(Instrs(Unit(program)));
      ScanCorrect(Instrs(Compress(program)));
      if Scan(Instrs(Unit(program))).Matched? {
        ExecNoMissingMatch(Unit(program), Scan(Instrs(Unit(program))).pairs, Initial(lines), n);
      }
      if Scan(Instrs(Compress(program))).Matched? {
        ExecNoMissingMatch(Compress(program), Scan(Instrs(Compress(program))).pairs, Initial(lines), n);
      }
    }
  }

  // ----- Cell arithmetic -----

  /** `n` executions of the basic `+` on one cell. */
  function Increments(v: Byte, n: nat): Byte {
    if n == 0 then v else WrappingAdd(Increments(v, n - 1), 1)
  }

  /** `n` executions of the basic `-` on one cell. */
  function Decrements(v: Byte, n: nat): Byte {
    if n == 0 then v else WrappingSub(Decrements(v, n - 1), 1)
  }

  /** The optimized `+` with count `n` (adding `n mod 256`) is `n` single wrapping increments. */
  lemma {:induction false} IncrementsWrap(v: Byte, n: nat)
    ensures Increments(v, n) == WrappingAdd(v, n % 256)
  {
    if n > 0 {
      var w := Increments(v, n - 1);
      IncrementsWrap(v, n - 1);
      assert Increments(v, n) == WrappingAdd(w, 1);
      WrappingAddCompose(v, n - 1, 1);
      assert 1 % 256 == 1;
    }
  }

  /** The optimized `-` with count `n` (subtracting `n mod 256`) is `n` single wrapping decrements. */
  lemma {:induction false} DecrementsWrap(v: Byte, n: nat)
    ensures Decrements(v, n) == WrappingSub(v, n % 256)
  {
    if n > 0 {
      var w := Decrements(v, n - 1);
      DecrementsWrap(v, n - 1);
      assert Decrements(v, n) == WrappingSub(w, 1);
      WrappingSubCompose(v, n - 1, 1);
      assert 1 % 256 == 1;
    }
  }

  // ----- Programs without instructions -----

  lemma {:induction false} ScanNoBrackets(xs: seq<Byte>, i: nat, m: map<nat, nat>)
    requires i <= |xs| && forall k :: i <= k < |xs| ==> !IsBracket(xs[k])
    ensures ScanFrom(xs, i, [], m) == Matched(m)
    decreases |xs| - i
  {
    if i < |xs| {
      ScanNoBrackets(xs, i + 1, m);
    }
  }

  lemma {:induction false} ExecComments(prog: seq<Op>, bm: map<nat, nat>, s: State, n: nat)
    requires forall k :: s.ip <= k < |prog| ==> !IsInstruction(prog[k].instr)
    requires s.ip + n >= |prog|
    ensures Exec(prog, bm, s, n) == Halted(s.output, s.memory)
    decreases n
  {
    if s.ip < |prog| {
      assert Step(prog, bm, s) == Next(s.(ip := s.ip + 1));
      ExecComments(prog, bm, s.(ip := s.ip + 1), n - 1);
    }
  }

  /** A program without instruction bytes (the empty program included) writes nothing and leaves the
      tape zeroed: the optimized interpreter stops at once, the basic one after stepping over each
      comment byte. */
  lemma CommentOnlyHalts(program: seq<Byte>, lines: seq<seq<Byte>>, n: nat)
    requires NoInstructions(program)
    ensures OptimizedOutcome(program, lines, n) == Halted([], Zeros())
    ensures n >= |program| ==> BasicOutcome(program, lines, n) == Halted([], Zeros())
  {
    CompressEmpty(program);
    assert Instrs(Compress(program)) == [];
    if program != [] {
      var xs := Instrs(Unit(program));
      ScanNoBrackets(xs, 0, map[]);
      if n >= |program| {
        ExecComments(Unit(program), map[], Initial(lines), n);
      }
    }
  }
}
