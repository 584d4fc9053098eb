/** `basic::run` (src/bin/brainfuck.rs:45-99) and `optimized::run` (src/bin/brainfuck.rs:171-230) as
    imperative loops over an in-place tape array, each proved to compute the tape machine's outcome.
    Standard input is the sequence of lines `read_until(b'\n')` would return, standard output the
    returned output bytes, and `fuel` bounds the number of loop iterations. */
module BfInterpreters {
  import opened BfSyntax
  import opened BfBrackets
  import opened BfCompress
  import opened BfMachine

  datatype Option<T> = None | Some(value: T)

  /** What `basic::run` does: nothing for an empty program, otherwise the machine on the raw bytes. */
  function BasicOutcome(program: seq<Byte>, lines: seq<seq<Byte>>, fuel: nat): Outcome {
    if program == [] then Halted([], Zeros()) else Run(Unit(program), lines, fuel)
  }

  /** What `optimized::run` does: nothing for an empty program, otherwise the machine on the compressed
      program. */
  function OptimizedOutcome(program: seq<Byte>, lines: seq<seq<Byte>>, fuel: nat): Outcome {
    if program == [] then Halted([], Zeros()) else Run(Compress(program), lines, fuel)
  }

  /** The machine state the loop variables stand for. */
  function LoopState(memory: seq<Byte>, mp: nat, ip: nat, buffer: seq<Byte>, lines: seq<seq<Byte>>,
                     output: seq<Byte>): State
  {
    State(memory, mp, ip, buffer, lines, output)
  }

  /** `basic::run`: one raw byte per iteration. */
  method BasicRun(program: seq<Byte>, input: seq<seq<Byte>>, fuel: nat) returns (o: Outcome)
    ensures o == BasicOutcome(program, input, fuel)
  {
    if |program| == 0 {
      return Halted([], Zeros());
    }
    var scan := GenerateBracketMap(program);
    assert Instrs(Unit(program)) == program;
    if scan.Unbalanced? {
      return UnbalancedBrackets;
    }
    o := BasicLoop(program, scan.pairs, input, fuel);
  }

  /** The interpreter loop of `basic::run` from the zeroed tape. */
  method BasicLoop(program: seq<Byte>, bracketMap: map<nat, nat>, input: seq<seq<Byte>>, fuel: nat)
    returns (o: Outcome)
    ensures o == Exec(Unit(program), bracketMap, Initial(input), fuel)
  {
    var memory := new Byte[MemorySize](_ => 0);
    var mp: nat := 0;
    var ip: nat := 0;
    var inputBuffer: seq<Byte> := [];
    var lines := input;
    var output: seq<Byte> := [];
    AllZeros(memory[..]);
    ghost var prog := Unit(program);
    ghost var target := Exec(prog, bracketMap, Initial(input), fuel);
    ghost var s := Initial(input);

    var remaining := fuel;
    while ip < |program|
      invariant memory.Length == MemorySize && |prog| == |program|
      invariant s == LoopState(memory[..], mp, ip, inputBuffer, lines, output)
      invariant Exec(prog, bracketMap, s, remaining) == target
      decreases remaining
    {
      if remaining == 0 {
        ExecOutOfFuel(prog, bracketMap, s);
        return OutOfFuel;
      }
      var fault;
      mp, ip, inputBuffer, lines, output, fault := BasicIteration(program, bracketMap, memory, mp, ip, inputBuffer, lines, output);
      if fault.Some? {
        ExecFail(prog, bracketMap, s, remaining, fault.value);
        return Faulted(output, fault.value);
      }
      ghost var s' := LoopState(memory[..], mp, ip, inputBuffer, lines, output);
      ExecNext(prog, bracketMap, s, remaining, s');
      s, remaining := s', remaining - 1;
    }
    ExecHalted(prog, bracketMap, s, remaining);
    return Halted(output, memory[..]);
  }

  /** The body of the `basic::run` loop: executes the byte at `ip` and moves `ip` on, or reports the panic. */
  method BasicIteration(program: seq<Byte>, bracketMap: map<nat, nat>, memory: array<Byte>, mp0: nat, ip0: nat,
                        buffer0: seq<Byte>, lines0: seq<seq<Byte>>, output0: seq<Byte>)
    returns (mp: nat, ip: nat, inputBuffer: seq<Byte>, lines: seq<seq<Byte>>, output: seq<Byte>, fault: Option<Fault>)
    requires ip0 < |program|
    modifies memory
    ensures fault.Some? ==>
      output == output0 &&
      Step(Unit(program), bracketMap, LoopState(old(memory[..]), mp0, ip0, buffer0, lines0, output0)) == Fail(fault.value)
    ensures fault.None? ==>
      Step(Unit(program), bracketMap, LoopState(old(memory[..]), mp0, ip0, buffer0, lines0, output0))
      == Next(LoopState(memory[..], mp, ip, inputBuffer, lines, output))
  {
    mp, ip, inputBuffer, lines, output, fault := mp0, ip0, buffer0, lines0, output0, None;
    var instruction := program[ip];
    if instruction == OpRight {
      mp := mp + 1;
    } else if instruction == OpLeft {
      if mp == 0 {
        return mp, ip, inputBuffer, lines, output, Some(PointerUnderflow);
      }
      mp := mp - 1;
    } else if instruction == OpInc {
      if mp >= memory.Length {
        return mp, ip, inputBuffer, lines, output, Some(PointerOutOfRange);
      }
      memory[mp] := WrappingAdd(memory[mp], 1);
    } else if instruction == OpDec {
      if mp >= memory.Length {
        return mp, ip, inputBuffer, lines, output, Some(PointerOutOfRange);
      }
      memory[mp] := WrappingSub(memory[mp], 1);
    } else if instruction == OpOut {
      if mp < memory.Length && memory[mp] < 128 {
        output := output + [memory[mp]];
      }
    } else if instruction == OpIn {
      if inputBuffer == [] && lines != [] {
        inputBuffer := lines[0];
        lines := lines[1..];
      }
      if inputBuffer == [] {
        return mp, ip, inputBuffer, lines, output, Some(InputExhausted);
      }
      var byte := inputBuffer[0];
      inputBuffer := inputBuffer[1..];
      if mp >= memory.Length {
        return mp, ip, inputBuffer, lines, output, Some(PointerOutOfRange);
      }
      memory[mp] := byte;
    } else if instruction == OpOpen {
      if mp >= memory.Length {
        return mp, ip, inputBuffer, lines, output, Some(PointerOutOfRange);
      }
      if memory[mp] == 0 {
        if ip !in bracketMap {
          return mp, ip, inputBuffer, lines, output, Some(MissingMatch);
        }
        ip := bracketMap[ip];
      }
    } else if instruction == OpClose {
      if mp >= memory.Length {
        return mp, ip, inputBuffer, lines, output, Some(PointerOutOfRange);
      }
      if memory[mp] != 0 {
        if ip !in bracketMap {
          return mp, ip, inputBuffer, lines, output, Some(MissingMatch);
        }
        ip := bracketMap[ip];
      }
    }
    ip := ip + 1;
  }

  /** `optimized::run`: compresses the program, then one run per iteration, moving the pointer by the
      whole count and changing the cell by `count mod 256`. */
  method OptimizedRun(program: seq<Byte>, input: seq<seq<Byte>>, fuel: nat) returns (o: Outcome)
    ensures o == OptimizedOutcome(program, input, fuel)
  {
    if |program| == 0 {
      return Halted([], Zeros());
    }
    var compressed := CompressProgram(program);
    var scan := GenerateCompressedBracketMap(compressed);
    if scan.Unbalanced? {
      return UnbalancedBrackets;
    }
    o := OptimizedLoop(compressed, scan.pairs, input, fuel);
  }

  /** The interpreter loop of `optimized::run` from the zeroed tape. */
  method OptimizedLoop(compressed: seq<Op>, bracketMap: map<nat, nat>, input: seq<seq<Byte>>, fuel: nat)
    returns (o: Outcome)
    ensures o == Exec(compressed, bracketMap, Initial(input), fuel)
  {
    var memory := new Byte[MemorySize](_ => 0);
    var mp: nat := 0;
    var ip: nat := 0;
    var inputBuffer: seq<Byte> := [];
    var lines := input;
    var output: seq<Byte> := [];
    AllZeros(memory[..]);

    ghost var target := Exec(compressed, bracketMap, Initial(input), fuel);
    ghost var s := Initial(input);

    var remaining := fuel;
    while ip < |compressed|
      invariant memory.Length == MemorySize
      invariant s == LoopState(memory[..], mp, ip, inputBuffer, lines, output)
      invariant Exec(compressed, bracketMap, s, remaining) == target
      decreases remaining
    {
      if remaining == 0 {
        ExecOutOfFuel(compressed, bracketMap, s);
        return OutOfFuel;
      }
      var fault;
      mp, ip, inputBuffer, lines, output, fault :=
        OptimizedIteration(compressed, bracketMap, memory, mp, ip, inputBuffer, lines, output);
      if fault.Some? {
        ExecFail(compressed, bracketMap, s, remaining, fault.value);
        return Faulted(output, fault.value);
      }
      ghost var s' := LoopState(memory[..], mp, ip, inputBuffer, lines, output);
      assert Exec(compressed, bracketMap, s', remaining - 1) == target by {
        ExecNext(compressed, bracketMap, s, remaining, s');
      }
      s, remaining := s', remaining - 1;
    }
    ExecHalted(compressed, bracketMap, s, remaining);
    return Halted(output, memory[..]);
  }

  /** The body of the `optimized::run` loop: executes the run at `ip` and moves `ip` on, or reports the
      panic. */
  method OptimizedIteration(compressed: seq<Op>, bracketMap: map<nat, nat>, memory: array<Byte>, mp0: nat,
                            ip0: nat, buffer0: seq<Byte>, lines0: seq<seq<Byte>>, output0: seq<Byte>)
    returns (mp: nat, ip: nat, inputBuffer: seq<Byte>, lines: seq<seq<Byte>>, output: seq<Byte>, fault: Option<Fault>)
    requires ip0 < |compressed|
    modifies memory
    ensures fault.Some? ==>
      output == output0 &&
      Step(compressed, bracketMap, LoopState(old(memory[..]), mp0, ip0, buffer0, lines0, output0)) == Fail(fault.value)
    ensures fault.None? ==>
      Step(compressed, bracketMap, LoopState(old(memory[..]), mp0, ip0, buffer0, lines0, output0))
      == Next(LoopState(memory[..], mp, ip, inputBuffer, lines, output))
  {
    mp, ip, inputBuffer, lines, output, fault := mp0, ip0, buffer0, lines0, output0, None;
    var instruction := compressed[ip].instr;
    var count := compressed[ip].count;
    if instruction == OpRight {
      mp := mp + count;
    } else if instruction == OpLeft {
      if mp < count {
        return mp, ip, inputBuffer, lines, output, Some(PointerUnderflow);
      }
      mp := mp - count;
    } else if instruction == OpInc {
      if mp >= memory.Length {
        return mp, ip, inputBuffer, lines, output, Some(PointerOutOfRange);
      }
      memory[mp] := WrappingAdd(memory[mp], count % 256);
    } else if instruction == OpDec {
      if mp >= memory.Length {
        return mp, ip, inputBuffer, lines, output, Some(PointerOutOfRange);
      }
      memory[mp] := WrappingSub(memory[mp], count % 256);
    } else if instruction == OpOut {
      if mp < memory.Length && memory[mp] < 128 {
        output := output + [memory[mp]];
      }
    } else if instruction == OpIn {
      if inputBuffer == [] && lines != [] {
        inputBuffer := lines[0];
        lines := lines[1..];
      }
      if inputBuffer == [] {
        return mp, ip, inputBuffer, lines, output, Some(InputExhausted);
      }
      var byte := inputBuffer[0];
      inputBuffer := inputBuffer[1..];
      if mp >= memory.Length {
        return mp, ip, inputBuffer, lines, output, Some(PointerOutOfRange);
      }
      memory[mp] := byte;
    } else if instruction == OpOpen {
      if mp >= memory.Length {
        return mp, ip, inputBuffer, lines, output, Some(PointerOutOfRange);
      }
      if memory[mp] == 0 {
        if ip !in bracketMap {
          return mp, ip, inputBuffer, lines, output, Some(MissingMatch);
        }
        ip := bracketMap[ip];
      }
    } else if instruction == OpClose {
      if mp >= memory.Length {
        return mp, ip, inputBuffer, lines, output, Some(PointerOutOfRange);
      }
      if memory[mp] != 0 {
        if ip !in bracketMap {
          return mp, ip, inputBuffer, lines, output, Some(MissingMatch);
        }
        ip := bracketMap[ip];
      }
    }
    ip := ip + 1;
  }
}
