/** The tape machine both interpreters of src/bin/brainfuck.rs run (the `while` loops of `basic::run`,
    lines 59-98, and `optimized::run`, lines 186-229), as a step function over compressed instructions.
    The basic interpreter is this machine on runs of count 1. */
module BfMachine {
  import opened BfSyntax
  import opened BfBrackets

  /** `MEMORY_SIZE`: 2^15 cells. */
  const MemorySize: nat := 32768

  /** The ways a run can panic. */
  datatype Fault =
    | PointerUnderflow   // `memory_pointer -= n` below zero (usize subtraction overflow)
    | PointerOutOfRange  // `memory[memory_pointer]` with the pointer at or past the end of the tape
    | InputExhausted     // `input_buffer.remove(0)` after end of input left the buffer empty
    | MissingMatch       // `bracket_map.get(..).unwrap()` on a position without a partner

  /** The machine state: tape, data pointer, instruction pointer, pending input bytes, the input lines
      not read yet, and the bytes written so far. */
  datatype State = State(
    memory: seq<Byte>, mp: nat, ip: nat, buffer: seq<Byte>, lines: seq<seq<Byte>>, output: seq<Byte>)

  datatype StepResult = Next(next: State) | Fail(fault: Fault)

  /** How a run ends: the program ran off its end, panicked, used up its step budget, or never started
      because its brackets do not match. */
  datatype Outcome =
    | Halted(output: seq<Byte>, memory: seq<Byte>)
    | Faulted(output: seq<Byte>, fault: Fault)
    | OutOfFuel
    | UnbalancedBrackets

  function Zeros(): (z: seq<Byte>)
    ensures |z| == MemorySize && forall i :: 0 <= i < |z| ==> z[i] == 0
  {
    seq(MemorySize, _ => 0)
  }

  lemma AllZeros(z: seq<Byte>)
    requires |z| == MemorySize && forall i :: 0 <= i < |z| ==> z[i] == 0
    ensures z == Zeros()
  {
  }

  /** Zeroed tape, both pointers at 0, empty input buffer, nothing written. */
  function Initial(lines: seq<seq<Byte>>): State {
    State(Zeros(), 0, 0, [], lines, [])
  }

  /** `u8::wrapping_add` and `u8::wrapping_sub`. */
  function WrappingAdd(v: Byte, d: Byte): Byte { (v + d) % 256 }
  function WrappingSub(v: Byte, d: Byte): Byte { (v - d) % 256 }

  /** The `.` filter: a cell is written only when the pointer is on the tape and the value is ASCII. */
  function Emit(s: State): seq<Byte> {
    if s.mp < |s.memory| && s.memory[s.mp] < 128 then s.output + [s.memory[s.mp]] else s.output
  }

  /** `[` and `]` jump to the partner position (the `+ 1` that follows is applied by the caller). */
  function Jump(bm: map<nat, nat>, s: State): StepResult {
    if s.ip in bm then Next(s.(ip := bm[s.ip] + 1)) else Fail(MissingMatch)
  }

  /** One iteration of the interpreter loop on the instruction at `s.ip`. Counts matter only for the
      four mergeable instructions; cell arithmetic adds or subtracts `count mod 256` with wrap-around. */
  function Step(prog: seq<Op>, bm: map<nat, nat>, s: State): StepResult
    requires s.ip < |prog|
  {
    var op := prog[s.ip];
    var s1 := s.(ip := s.ip + 1);
    if op.instr == OpRight then
      Next(s1.(mp := s.mp + op.count))
    else if op.instr == OpLeft then
      if s.mp < op.count then Fail(PointerUnderflow) else Next(s1.(mp := s.mp - op.count))
    else if op.instr == OpInc then
      if s.mp < |s.memory| then Next(s1.(memory := s.memory[s.mp := WrappingAdd(s.memory[s.mp], op.count % 256)]))
      else Fail(PointerOutOfRange)
    else if op.instr == OpDec then
      if s.mp < |s.memory| then Next(s1.(memory := s.memory[s.mp := WrappingSub(s.memory[s.mp], op.count % 256)]))
      else Fail(PointerOutOfRange)
    else if op.instr == OpOut then
      Next(s1.(output := Emit(s)))
    else if op.instr == OpIn then
      // an empty buffer is refilled with the next line first; the byte is taken before the tape is indexed
      var refill := s.buffer == [];
      var buffer := if refill && s.lines != [] then s.lines[0] else s.buffer;
      var lines := if refill && s.lines != [] then s.lines[1..] else s.lines;
      if buffer == [] then Fail(InputExhausted)
      else if s.mp < |s.memory| then Next(s1.(memory := s.memory[s.mp := buffer[0]], buffer := buffer[1..], lines := lines))
      else Fail(PointerOutOfRange)
    else if op.instr == OpOpen then
      if s.mp >= |s.memory| then Fail(PointerOutOfRange)
      else if s.memory[s.mp] == 0 then Jump(bm, s)
      else Next(s1)
    else if op.instr == OpClose then
      if s.mp >= |s.memory| then Fail(PointerOutOfRange)
      else if s.memory[s.mp] != 0 then Jump(bm, s)
      else Next(s1)
    else
      Next(s1)
  }

  /** At most `fuel` iterations of the interpreter loop from `s`; the loop ends exactly when the
      instruction pointer is past the last instruction. */
  function Exec(prog: seq<Op>, bm: map<nat, nat>, s: State, fuel: nat): Outcome
    decreases fuel
  {
    if s.ip >= |prog| then Halted(s.output, s.memory)
    else if fuel == 0 then OutOfFuel
    else match Step(prog, bm, s)
      case Fail(f) => Faulted(s.output, f)
      case Next(s') => Exec(prog, bm, s', fuel - 1)
  }

  /** Building the bracket map, then running from the initial state (the `unwrap` on the map is the
      `UnbalancedBrackets` outcome). */
  function Run(prog: seq<Op>, lines: seq<seq<Byte>>, fuel: nat): Outcome {
    match Scan(Instrs(prog))
    case Unbalanced => UnbalancedBrackets
    case Matched(bm) => Exec(prog, bm, Initial(lines), fuel)
  }

  /** A step either moves on to the next instruction or, on a bracket, lands just past its partner. */
  lemma StepLands(prog: seq<Op>, bm: map<nat, nat>, s: State)
    requires s.ip < |prog|
    ensures Step(prog, bm, s).Next? ==>
      Step(prog, bm, s).next.ip == s.ip + 1 ||
      (IsBracket(prog[s.ip].instr) && s.ip in bm && Step(prog, bm, s).next.ip == bm[s.ip] + 1)
  {
  }

  lemma ExecNext(prog: seq<Op>, bm: map<nat, nat>, s: State, n: nat, s': State)
    requires s.ip < |prog| && n > 0 && Step(prog, bm, s) == Next(s')
    ensures Exec(prog, bm, s, n) == Exec(prog, bm, s', n - 1)
  {
  }

  lemma ExecHalted(prog: seq<Op>, bm: map<nat, nat>, s: State, n: nat)
    requires s.ip >= |prog|
    ensures Exec(prog, bm, s, n) == Halted(s.output, s.memory)
  {
  }

  lemma ExecOutOfFuel(prog: seq<Op>, bm: map<nat, nat>, s: State)
    requires s.ip < |prog|
    ensures Exec(prog, bm, s, 0) == OutOfFuel
  {
  }

  lemma ExecFail(prog: seq<Op>, bm: map<nat, nat>, s: State, n: nat, f: Fault)
    requires s.ip < |prog| && n > 0 && Step(prog, bm, s) == Fail(f)
    ensures Exec(prog, bm, s, n) == Faulted(s.output, f)
  {
  }

  /** Two runs, each about to execute an instruction, end alike when their next steps fail alike, or
      both succeed and the rest of the two runs end alike. */
  lemma ExecLockstep(P: seq<Op>, bmP: map<nat, nat>, s: State, a: nat,
                     Q: seq<Op>, bmQ: map<nat, nat>, t: State, b: nat)
    requires s.ip < |P| && t.ip < |Q| && a > 0 && b > 0 && s.output == t.output
    requires Step(P, bmP, s).Fail? ==> Step(Q, bmQ, t) == Step(P, bmP, s)
    requires Step(P, bmP, s).Next? ==>
      (Step(Q, bmQ, t).Next? &&
       Exec(P, bmP, Step(P, bmP, s).next, a - 1) == Exec(Q, bmQ, Step(Q, bmQ, t).next, b - 1))
    ensures Exec(P, bmP, s, a) == Exec(Q, bmQ, t, b)
  {
  }

  /** Giving a finished run more fuel does not change how it ends. */
  lemma {:induction false} ExecMonotone(prog: seq<Op>, bm: map<nat, nat>, s: State, n: nat, m: nat)
    requires n <= m && Exec(prog, bm, s, n) != OutOfFuel
    ensures Exec(prog, bm, s, m) == Exec(prog, bm, s, n)
    decreases n
  {
    if s.ip < |prog| && n > 0 {
      match Step(prog, bm, s)
      case Fail(_) =>
      case Next(s') => ExecMonotone(prog, bm, s', n - 1, m - 1);
    }
  }
}
