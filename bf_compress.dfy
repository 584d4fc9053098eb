/** Run-length compression of a raw program (`optimized::compress_program`, src/bin/brainfuck.rs:108-139). */
module BfCompress {
  import opened BfSyntax

  /** Appends one instruction byte to a compressed program: it extends the last run when both are the
      same mergeable instruction, and otherwise opens a new run of count 1. */
  function Push(r: seq<Op>, b: Byte): seq<Op>
  {
    if r != [] && IsMergeable(b) && r[|r| - 1].instr == b
    then r[..|r| - 1] + [Op(b, r[|r| - 1].count + 1)]
    else r + [Op(b, 1)]
  }

  /** The compressed form of a raw program, read left to right: comments are skipped and each
      instruction byte is pushed onto the runs built so far. */
  function Compress(p: seq<Byte>): seq<Op>
  {
    if p == [] then []
    else if IsInstruction(p[|p| - 1]) then Push(Compress(p[..|p| - 1]), p[|p| - 1])
    else Compress(p[..|p| - 1])
  }

  /** The shape every compressed program has: each run has a real instruction and a count of at least
      one, only the four mergeable instructions repeat, and no two neighbouring runs could have been
      merged. */
  ghost predicate Canonical(r: seq<Op>) {
    (forall i :: 0 <= i < |r| ==> IsInstruction(r[i].instr) && r[i].count >= 1) &&
    (forall i :: 0 <= i < |r| && r[i].count > 1 ==> IsMergeable(r[i].instr)) &&
    (forall i :: 0 <= i < |r| - 1 && IsMergeable(r[i].instr) ==> r[i].instr != r[i + 1].instr)
  }

  predicate NoInstructions(p: seq<Byte>) {
    forall i :: 0 <= i < |p| ==> !IsInstruction(p[i])
  }

  lemma PushExpand(r: seq<Op>, b: Byte)
    ensures Expand(Push(r, b)) == Expand(r) + [b]
  {
    if r != [] && IsMergeable(b) && r[|r| - 1].instr == b {
      var last := r[|r| - 1];
      var r' := Push(r, b);
      assert r'[..|r'| - 1] == r[..|r| - 1];
      assert Repeat(b, last.count + 1) == Repeat(b, last.count) + [b];
      assert Expand(r) == Expand(r[..|r| - 1]) + Repeat(b, last.count);
    } else {
      assert (r + [Op(b, 1)])[..|r|] == r;
      assert Repeat(b, 1) == [b];
    }
  }

  /** Expanding every run of the compressed program gives back exactly the program's instruction
      bytes, in order, with the comments gone. */
  lemma {:induction false} ExpandCompress(p: seq<Byte>)
    ensures Expand(Compress(p)) == Filter(p)
  {
    if p != [] {
      ExpandCompress(p[..|p| - 1]);
      if IsInstruction(p[|p| - 1]) {
        PushExpand(Compress(p[..|p| - 1]), p[|p| - 1]);
      }
    }
  }

  lemma PushCanonical(r: seq<Op>, b: Byte)
    requires Canonical(r) && IsInstruction(b)
    ensures Canonical(Push(r, b))
  {
    var r' := Push(r, b);
    if r != [] && IsMergeable(b) && r[|r| - 1].instr == b {
      assert forall i :: 0 <= i < |r| - 1 ==> r'[i] == r[i];
    } else {
      assert forall i :: 0 <= i < |r| ==> r'[i] == r[i];
    }
  }

  /** Every compressed program is in canonical run-length form. */
  lemma {:induction false} CompressCanonical(p: seq<Byte>)
    ensures Canonical(Compress(p))
  {
    if p != [] {
      CompressCanonical(p[..|p| - 1]);
      if IsInstruction(p[|p| - 1]) {
        PushCanonical(Compress(p[..|p| - 1]), p[|p| - 1]);
      }
    }
  }

  /** A program compresses to nothing exactly when it holds no instruction byte. */
  lemma {:induction false} CompressEmpty(p: seq<Byte>)
    ensures Compress(p) == [] <==> NoInstructions(p)
  {
    if p != [] {
      var q := p[..|p| - 1];
      CompressEmpty(q);
      assert NoInstructions(p) <==> NoInstructions(q) && !IsInstruction(p[|p| - 1]) by {
        assert forall i :: 0 <= i < |q| ==> q[i] == p[i];
      }
    }
  }

  /** A canonical run-length form is determined by what it expands to: the compressed program is the
      only canonical sequence of runs that expands to the program's instructions. */
  lemma {:induction false} CanonicalUnique(r: seq<Op>, p: seq<Byte>)
    requires Canonical(r) && Expand(r) == Filter(p)
    ensures r == Compress(p)
  {
    CanonicalUniqueAux(r, Filter(p));
    CompressFilter(p);
  }

  /** Compressing only looks at the instruction bytes. */
  lemma {:induction false} CompressFilter(p: seq<Byte>)
    ensures Compress(p) == Compress(Filter(p))
  {
    if p != [] {
      var q := p[..|p| - 1];
      CompressFilter(q);
      var f := Filter(q);
      if IsInstruction(p[|p| - 1]) {
        assert (f + [p[|p| - 1]])[..|f|] == f;
      }
    }
  }

  lemma PushOpensRun(r: seq<Op>, b: Byte)
    requires r != [] && IsMergeable(b) ==> r[|r| - 1].instr != b
    ensures Push(r, b) == r + [Op(b, 1)]
  {
  }

  /** The last run of a canonical form, and what is left before it. */
  lemma LastRun(r: seq<Op>)
    requires Canonical(r) && r != []
    ensures var init, last := r[..|r| - 1], r[|r| - 1];
      Canonical(init) && r == init + [last] && Expand(r) == Expand(init) + Repeat(last.instr, last.count) &&
      IsInstruction(last.instr) && last.count >= 1 && (last.count > 1 ==> IsMergeable(last.instr)) &&
      (init != [] && IsMergeable(last.instr) ==> init[|init| - 1].instr != last.instr)
  {
  }

  /** A last run longer than one is the same run one shorter, pushed once more. */
  lemma ShortenRun(r: seq<Op>)
    requires Canonical(r) && r != [] && r[|r| - 1].count > 1
    ensures var last := r[|r| - 1]; var shorter := r[..|r| - 1] + [Op(last.instr, last.count - 1)];
      Canonical(shorter) && Expand(r) == Expand(shorter) + [last.instr] && Push(shorter, last.instr) == r
  {
    var init, last := r[..|r| - 1], r[|r| - 1];
    ShortenCanonical(r, init + [Op(last.instr, last.count - 1)]);
    ShortenExpand(r, init + [Op(last.instr, last.count - 1)]);
    ShortenPush(r, init + [Op(last.instr, last.count - 1)]);
  }

  lemma ShortenCanonical(r: seq<Op>, shorter: seq<Op>)
    requires Canonical(r) && r != [] && r[|r| - 1].count > 1
    requires shorter == r[..|r| - 1] + [Op(r[|r| - 1].instr, r[|r| - 1].count - 1)]
    ensures Canonical(shorter)
  {
    assert forall i :: 0 <= i < |r| - 1 ==> shorter[i] == r[i];
  }

  lemma ShortenExpand(r: seq<Op>, shorter: seq<Op>)
    requires r != [] && r[|r| - 1].count > 0
    requires shorter == r[..|r| - 1] + [Op(r[|r| - 1].instr, r[|r| - 1].count - 1)]
    ensures Expand(r) == Expand(shorter) + [r[|r| - 1].instr]
  {
    var last := r[|r| - 1];
    assert shorter[..|shorter| - 1] == r[..|r| - 1];
    assert Repeat(last.instr, last.count) == Repeat(last.instr, last.count - 1) + [last.instr];
  }

  lemma ShortenPush(r: seq<Op>, shorter: seq<Op>)
    requires Canonical(r) && r != [] && r[|r| - 1].count > 1
    requires shorter == r[..|r| - 1] + [Op(r[|r| - 1].instr, r[|r| - 1].count - 1)]
    ensures Push(shorter, r[|r| - 1].instr) == r
  {
    assert shorter[..|shorter| - 1] == r[..|r| - 1];
    assert r == r[..|r| - 1] + [r[|r| - 1]];
  }

  /** Compressing a program that ends in an instruction byte pushes that byte last. */
  lemma CompressSnoc(g: seq<Byte>, b: Byte)
    requires IsInstruction(b)
    ensures Compress(g + [b]) == Push(Compress(g), b)
  {
    assert (g + [b])[..|g|] == g;
  }

  lemma {:induction false} CanonicalUniqueAux(r: seq<Op>, f: seq<Byte>)
    requires Canonical(r) && Expand(r) == f
    ensures r == Compress(f)
    decreases |f|
  {
    if r != [] {
      var init, last := r[..|r| - 1], r[|r| - 1];
      LastRun(r);
      var b := last.instr;
      if last.count == 1 {
        var g := Expand(init);
        assert f == g + [b] by {
          assert Repeat(b, 1) == [b];
        }
        CanonicalUniqueAux(init, g);
        assert r == Push(init, b) by {
          PushOpensRun(init, b);
        }
        CompressSnoc(g, b);
      } else {
        var shorter := init + [Op(b, last.count - 1)];
        var g := Expand(shorter);
        ShortenRun(r);
        CanonicalUniqueAux(shorter, g);
        CompressSnoc(g, b);
      }
    }
  }

  /** `compress_program`: one pass that drops comment bytes and merges adjacent identical mergeable
      instructions into `(instr, count)` runs; `.` `,` `[` `]` always become runs of count 1. */
  method CompressProgram(p: seq<Byte>) returns (r: seq<Op>)
    ensures r == Compress(p)
    ensures Expand(r) == Filter(p) && Canonical(r)
    ensures r == [] <==> NoInstructions(p)
  {
    // the position of the first instruction byte, if any
    var start := 0;
    while start < |p| && !IsInstruction(p[start])
      invariant start <= |p|
      invariant Compress(p[..start]) == []
    {
      assert p[..start + 1][..start] == p[..start];
      start := start + 1;
    }
    if start == |p| {
      assert p[..start] == p;
      r := [];
    } else {
      var current := p[start];
      var count := 1;
      r := [];
      assert p[..start + 1][..start] == p[..start];
      for i := start + 1 to |p|
        invariant count >= 1
        invariant r + [Op(current, count)] == Compress(p[..i])
      {
        assert p[..i + 1][..i] == p[..i];
        var b := p[i];
        if IsInstruction(b) {
          if IsMergeable(current) && current == b {
            count := count + 1;
            continue;
          }
          r := r + [Op(current, count)];
          current := b;
          count := 1;
        }
      }
      r := r + [Op(current, count)];
      assert p[..|p|] == p;
    }
    ExpandCompress(p);
    CompressCanonical(p);
    CompressEmpty(p);
  }
}
