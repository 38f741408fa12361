/** The encodings of the call-frame instructions (section 7.23 of DWARF 4): the standard's decoder inverts
    them, and so, up to the harmful ones, does the debugger. */
module CfiEncoding {
  import opened Words
  import opened Cursors
  import opened Cfi
  import opened CfiTables
  import opened CfiStandard
  import opened CfiFrames

  /** An opcode byte with its operands as written: `a` is the register or the delta, and `v` the last operand,
      which for a single unsigned one is `a`. */
  datatype Operation = Operation(op: byte, a: nat, v: int)

  /** The opcode is one of the standard's and the operands fit their places. `set_loc` is left aside. */
  predicate Writable(o: Operation) {
    Numbered(o.op, o.a, o.v)
    && match ShapeOf(o.op)
       case Bare => o.a == 0 == o.v
       case Sized(size) => o.a < Pow256(size) && o.v == o.a
       case One => o.a < TWO_64 && o.v == o.a
       case Two => o.a < TWO_64 && 0 <= o.v < TWO_64
       case OneSigned => o.a == 0 && InWord(o.v)
       case RegisterSigned => o.a < TWO_64 && InWord(o.v)
       case _ => false
  }

  function EncodeOperands(o: Operation): seq<byte>
    requires Writable(o)
  {
    match ShapeOf(o.op)
    case Bare => []
    case Sized(size) => ToBytes(o.a, size)
    case One => UlebEncode(o.a)
    case Two => UlebEncode(o.a) + UlebEncode(o.v)
    case OneSigned => SlebEncode(o.v)
    case RegisterSigned => UlebEncode(o.a) + SlebEncode(o.v)
  }

  function EncodeOperation(o: Operation): seq<byte>
    requires Writable(o)
  {
    [o.op] + EncodeOperands(o)
  }

  /** What the standard makes of it: offsets are exact, and those that are factored are products. */
  function MeaningOf(env: Env, o: Operation): Instr {
    Instruction(env, o.op, o.a, Offset(env, o.op, o.v))
  }

  // ----- Operands read back -----

  lemma UnsignedBack(data: seq<byte>, pos: nat, v: nat, bs: seq<byte>)
    requires v < TWO_64 && bs == UlebEncode(v) && At(data, pos, bs)
    ensures Unsigned(data, pos) == Ok(Read(v, pos + |bs|))
  {
    Pow128Nine();
    UlebEncodeShape(v, 10);
    LebEndAt(data, pos, bs, 0);
    assert data[pos..pos + |bs|] == bs;
  }

  lemma SignedBack(data: seq<byte>, pos: nat, v: int, bs: seq<byte>)
    requires InWord(v) && bs == SlebEncode(v) && At(data, pos, bs)
    ensures Signed(data, pos) == Ok(Read(v, pos + |bs|))
  {
    Pow128Nine();
    SlebEncodeShape(v, 10);
    LebEndAt(data, pos, bs, 0);
    assert data[pos..pos + |bs|] == bs;
  }

  lemma OperandsBack(env: Env, data: seq<byte>, pos: nat, o: Operation, bs: seq<byte>)
    requires Writable(o) && bs == EncodeOperands(o) && At(data, pos, bs)
    ensures OperandsAt(env, data, pos, ShapeOf(o.op)) == Ok(Operands(o.a, o.v, pos + |bs|))
  {
    var shape := ShapeOf(o.op);
    if shape.Two? || shape.RegisterSigned? {
      PairBack(env, data, pos, o, shape, bs);
    } else if shape.Sized? {
      LittleEndianRoundTrip(o.a, shape.size);
    } else if shape.One? {
      UnsignedBack(data, pos, o.a, bs);
    } else if shape.OneSigned? {
      SignedBack(data, pos, o.v, bs);
    }
  }

  lemma PairBack(env: Env, data: seq<byte>, pos: nat, o: Operation, shape: Shape, bs: seq<byte>)
    requires Writable(o) && shape == ShapeOf(o.op) && (shape.Two? || shape.RegisterSigned?) && bs == EncodeOperands(o) && At(data, pos, bs)
    ensures OperandsAt(env, data, pos, shape) == Ok(Operands(o.a, o.v, pos + |bs|))
  {
    if shape.Two? {
      TwoBack(data, pos, o.a, o.v, UlebEncode(o.a), UlebEncode(o.v));
    } else {
      SignedTwoBack(data, pos, o.a, o.v, UlebEncode(o.a), SlebEncode(o.v));
    }
  }

  lemma TwoBack(data: seq<byte>, pos: nat, a: nat, v: nat, x: seq<byte>, y: seq<byte>)
    requires a < TWO_64 && v < TWO_64 && x == UlebEncode(a) && y == UlebEncode(v) && At(data, pos, x + y)
    ensures Unsigned(data, pos) == Ok(Read(a, pos + |x|)) && Unsigned(data, pos + |x|) == Ok(Read(v, pos + |x + y|))
  {
    AtSplit(data, pos, x, y);
    UnsignedBack(data, pos, a, x);
    UnsignedBack(data, pos + |x|, v, y);
  }

  lemma SignedTwoBack(data: seq<byte>, pos: nat, a: nat, v: int, x: seq<byte>, y: seq<byte>)
    requires a < TWO_64 && InWord(v) && x == UlebEncode(a) && y == SlebEncode(v) && At(data, pos, x + y)
    ensures Unsigned(data, pos) == Ok(Read(a, pos + |x|)) && Signed(data, pos + |x|) == Ok(Read(v, pos + |x + y|))
  {
    AtSplit(data, pos, x, y);
    UnsignedBack(data, pos, a, x);
    SignedBack(data, pos + |x|, v, y);
  }

  /** Every instruction of the standard's, `set_loc` and expressions aside, is decoded by its decoder wherever
      the encoding lies, and exactly its bytes are consumed. */
  lemma InstructionDecodes(env: Env, data: seq<byte>, pos: nat, o: Operation)
    requires Writable(o) && At(data, pos, EncodeOperation(o))
    ensures StandardAt(env, data, pos) == Ok(Read(MeaningOf(env, o), pos + |EncodeOperation(o)|))
  {
    var bs := EncodeOperands(o);
    AtSplit(data, pos, [o.op], bs);
    AtIndex(data, pos, [o.op], 0);
    OperandsBack(env, data, pos + 1, o, bs);
  }

  // ----- Programs -----

  predicate AllWritable(ops: seq<Operation>) {
    forall i :: 0 <= i < |ops| ==> Writable(ops[i])
  }

  function Codes(ops: seq<Operation>): (codes: seq<seq<byte>>)
    requires AllWritable(ops)
    ensures |codes| == |ops| && forall i :: 0 <= i < |ops| ==> codes[i] == EncodeOperation(ops[i])
  {
    seq(|ops|, i requires 0 <= i < |ops| => EncodeOperation(ops[i]))
  }

  function EncodeProgram(ops: seq<Operation>): seq<byte>
    requires AllWritable(ops)
  {
    Concat(Codes(ops))
  }

  function MeaningsOf(env: Env, ops: seq<Operation>): (meanings: seq<Instr>)
    ensures |meanings| == |ops| && forall i :: 0 <= i < |ops| ==> meanings[i] == MeaningOf(env, ops[i])
  {
    seq(|ops|, i requires 0 <= i < |ops| => MeaningOf(env, ops[i]))
  }

  /** A decoder of single instructions. */
  type Decoder = nat -> Result<Read<Instr>>

  /** The bytes `code`, wherever they lie in the data, are decoded to this instruction. */
  ghost predicate Encodes(decode: Decoder, data: seq<byte>, code: seq<byte>, i: Instr) {
    code != [] && forall pos: nat :: At(data, pos, code) ==> decode(pos) == Ok(Read(i, pos + |code|))
  }

  ghost predicate AllEncode(decode: Decoder, data: seq<byte>, codes: seq<seq<byte>>, instrs: seq<Instr>)
    decreases codes
  {
    if codes == [] then instrs == []
    else instrs != [] && Encodes(decode, data, codes[0], instrs[0]) && AllEncode(decode, data, codes[1..], instrs[1..])
  }

  /** The instructions follow one another from `pos` to the end of the data. */
  ghost predicate Follow(decode: Decoder, size: nat, pos: nat, codes: seq<seq<byte>>, instrs: seq<Instr>)
    decreases codes
  {
    if codes == [] then instrs == [] && pos == size
    else
      && instrs != [] && pos < size && decode(pos) == Ok(Read(instrs[0], pos + |codes[0]|))
      && Follow(decode, size, pos + |codes[0]|, codes[1..], instrs[1..])
  }

  lemma {:induction false} ConcatFollows(decode: Decoder, data: seq<byte>, pos: nat, codes: seq<seq<byte>>, instrs: seq<Instr>)
    requires AllEncode(decode, data, codes, instrs) && At(data, pos, Concat(codes)) && pos + |Concat(codes)| == |data|
    ensures Follow(decode, |data|, pos, codes, instrs)
    decreases codes
  {
    if codes != [] {
      AtSplit(data, pos, codes[0], Concat(codes[1..]));
      ConcatFollows(decode, data, pos + |codes[0]|, codes[1..], instrs[1..]);
    }
  }

  /** A decoder of whole programs: one instruction after the other, up to the end of the data. */
  type Runner = nat -> Result<seq<Instr>>

  ghost predicate Repeats(decode: Decoder, size: nat, run: Runner) {
    && (forall p: nat :: p >= size ==> run(p) == Ok([]))
    && (forall p: nat :: p < size && decode(p).Ok? && run(decode(p).value.next).Ok? ==>
          run(p) == Ok([decode(p).value.value] + run(decode(p).value.next).value))
  }

  lemma {:induction false} FollowingIsRead(decode: Decoder, size: nat, run: Runner, pos: nat, codes: seq<seq<byte>>, instrs: seq<Instr>)
    requires Repeats(decode, size, run) && Follow(decode, size, pos, codes, instrs)
    ensures run(pos) == Ok(instrs)
    decreases codes
  {
    if codes != [] {
      FollowingIsRead(decode, size, run, pos + |codes[0]|, codes[1..], instrs[1..]);
      assert [instrs[0]] + instrs[1..] == instrs;
    }
  }

  lemma {:induction false} OperationsEncode(env: Env, data: seq<byte>, decode: Decoder, ops: seq<Operation>)
    requires AllWritable(ops) && forall p: nat :: decode(p) == StandardAt(env, data, p)
    ensures AllEncode(decode, data, Codes(ops), MeaningsOf(env, ops))
    decreases |ops|
  {
    if ops != [] {
      OperationEncodes(env, data, decode, ops[0]);
      OperationsEncode(env, data, decode, ops[1..]);
      assert Codes(ops)[1..] == Codes(ops[1..]) && MeaningsOf(env, ops)[1..] == MeaningsOf(env, ops[1..]);
    }
  }

  lemma OperationEncodes(env: Env, data: seq<byte>, decode: Decoder, o: Operation)
    requires Writable(o) && forall p: nat :: decode(p) == StandardAt(env, data, p)
    ensures Encodes(decode, data, EncodeOperation(o), MeaningOf(env, o))
  {
    forall pos: nat | At(data, pos, EncodeOperation(o))
      ensures decode(pos) == Ok(Read(MeaningOf(env, o), pos + |EncodeOperation(o)|))
    {
      InstructionDecodes(env, data, pos, o);
    }
  }

  /** Every program of such instructions comes back from its bytes as it was meant. */
  lemma ProgramDecodes(env: Env, ops: seq<Operation>)
    requires AllWritable(ops)
    ensures Standard(env, EncodeProgram(ops), 0) == Ok(MeaningsOf(env, ops))
  {
    var data := EncodeProgram(ops);
    var decode: Decoder := (pos: nat) => StandardAt(env, data, pos);
    OperationsEncode(env, data, decode, ops);
    assert data[0..|data|] == data;
    ConcatFollows(decode, data, 0, Codes(ops), MeaningsOf(env, ops));
    FollowingIsRead(decode, |data|, (pos: nat) => Standard(env, data, pos), 0, Codes(ops), MeaningsOf(env, ops));
  }

  /** What the operations mean does not depend on where they lie. */
  lemma SameMeanings(a: Env, b: Env, ops: seq<Operation>)
    requires a.codeAlign == b.codeAlign && a.dataAlign == b.dataAlign
    ensures MeaningsOf(a, ops) == MeaningsOf(b, ops)
  {
  }

  /** The table of a frame as its instructions are meant. */
  function TableMeant(env: Env, cie: seq<Operation>, ops: seq<Operation>, start: u64): Result<seq<Row>> {
    var s :- Exec(Overwrite, MeaningsOf(env, cie), INITIAL);
    Table(Overwrite, MeaningsOf(env, ops), s.(cieRules := s.rules, location := start))
  }

  /** So `unwind` computes, for every frame written with such instructions, `def_cfa_register` among them, whose
      table never goes back, and every `pc` up to which they are harmless, the row for `pc` of the table of the
      instructions as meant. */
  lemma WrittenFrameUnwinds(f: Frame, cie: seq<Operation>, ops: seq<Operation>, pc: u64)
    requires AllWritable(cie) && AllWritable(ops)
    requires f.cieProgram == EncodeProgram(cie) && f.program == EncodeProgram(ops)
    requires f.start <= pc < Wrap64(f.start + f.range)
    requires TableMeant(f.env, cie, ops, f.start).Ok? && NonDecreasing(TableMeant(f.env, cie, ops, f.start).value)
    requires StandardStart(f).Ok? ==> HarmlessFrame(f, pc)
    ensures ContextAt(f, pc).Ok? && HoldsRowAt(TableMeant(f.env, cie, ops, f.start).value, pc, ContextAt(f, pc).value)
  {
    ProgramDecodes(f.CieEnv(), cie);
    ProgramDecodes(f.env, ops);
    SameMeanings(f.CieEnv(), f.env, cie);
    assert StandardTable(f) == TableMeant(f.env, cie, ops, f.start);
    UnwindIsStandardRow(f, pc);
  }
}
