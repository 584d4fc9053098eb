/** The instruction alphabet of the tape language and the compressed (run-length) instruction form
    shared by both interpreters in src/bin/brainfuck.rs. */
module BfSyntax {

  /** A `u8`: raw program bytes, tape cells and input/output bytes. */
  type Byte = b: int | 0 <= b < 256

  const OpRight: Byte := 62  // '>'
  const OpLeft: Byte := 60   // '<'
  const OpInc: Byte := 43    // '+'
  const OpDec: Byte := 45    // '-'
  const OpOut: Byte := 46    // '.'
  const OpIn: Byte := 44     // ','
  const OpOpen: Byte := 91   // '['
  const OpClose: Byte := 93  // ']'

  /** The eight instruction bytes; every other byte is a comment. */
  predicate IsInstruction(b: Byte) {
    b == OpRight || b == OpLeft || b == OpInc || b == OpDec ||
    b == OpOut || b == OpIn || b == OpOpen || b == OpClose
  }

  /** The four instructions whose adjacent repetitions are merged into one run. */
  predicate IsMergeable(b: Byte) {
    b == OpRight || b == OpLeft || b == OpInc || b == OpDec
  }

  predicate IsBracket(b: Byte) {
    b == OpOpen || b == OpClose
  }

  /** One compressed instruction: the `(u8, usize)` pair of the optimized interpreter. */
  datatype Op = Op(instr: Byte, count: nat)

  /** The raw program seen as compressed instructions of count 1 each (what the basic interpreter runs). */
  function Unit(p: seq<Byte>): (r: seq<Op>)
    ensures |r| == |p|
    ensures forall i :: 0 <= i < |p| ==> r[i] == Op(p[i], 1)
  {
    seq(|p|, i requires 0 <= i < |p| => Op(p[i], 1))
  }

  /** The instruction bytes of a compressed program, position by position. */
  function Instrs(c: seq<Op>): (r: seq<Byte>)
    ensures |r| == |c|
    ensures forall i :: 0 <= i < |c| ==> r[i] == c[i].instr
  {
    seq(|c|, i requires 0 <= i < |c| => c[i].instr)
  }

  /** The instructions of a program with every comment byte removed. */
  function Filter(p: seq<Byte>): (r: seq<Byte>)
    ensures |r| <= |p|
    ensures forall i :: 0 <= i < |r| ==> IsInstruction(r[i])
  {
    if p == [] then []
    else if IsInstruction(p[|p| - 1]) then Filter(p[..|p| - 1]) + [p[|p| - 1]]
    else Filter(p[..|p| - 1])
  }

  /** `n` copies of `b`. */
  function Repeat(b: Byte, n: nat): (r: seq<Byte>)
    ensures |r| == n
    ensures forall i :: 0 <= i < n ==> r[i] == b
  {
    if n == 0 then [] else Repeat(b, n - 1) + [b]
  }

  /** Expands every run `(instr, count)` back into `count` copies of `instr`. */
  function Expand(c: seq<Op>): (r: seq<Byte>)
  {
    if c == [] then [] else Expand(c[..|c| - 1]) + Repeat(c[|c| - 1].instr, c[|c| - 1].count)
  }
}
