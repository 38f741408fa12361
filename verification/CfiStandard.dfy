/** The call-frame instructions as section 6.4.2 of DWARF 4 defines them and section 7.23 encodes them, read
    by a decoder of their own, and exactly when the debugger's interpreter follows them. */
module CfiStandard {
  import opened Words
  import opened Cursors
  import opened EhFrame
  import opened Cfi

  // ----- The standard's decoder -----

  /** The operands of an opcode. Expressions are not part of this model. */
  datatype Shape = Bare | Sized(size: nat) | Pointer | One | Two | OneSigned | RegisterSigned | Unknown

  function ShapeOf(op: byte): Shape {
    if op >= 0x40 then if 0x80 <= op < 0xc0 then One else Bare
    else
      match op
      case 0x00 | 0x0a | 0x0b => Bare
      case 0x01 => Pointer
      case 0x02 => Sized(1)
      case 0x03 => Sized(2)
      case 0x04 => Sized(4)
      case 0x06 | 0x07 | 0x08 | 0x0d | 0x0e => One
      case 0x05 | 0x09 | 0x0c | 0x14 => Two
      case 0x13 => OneSigned
      case 0x11 | 0x12 | 0x15 => RegisterSigned
      case _ => Unknown
  }

  /** An unsigned number, and the last operand whatever it is, as the standard reads them. */
  datatype Operands = Operands(a: nat, v: int, next: nat)

  function Unsigned(data: seq<byte>, pos: nat): (r: Result<Read<nat>>)
    ensures r.Ok? ==> pos < r.value.next <= |data|
  {
    var end :- LebEnd(data, pos, 0);
    Ok(Read(Groups(data[pos..end]), end))
  }

  function Signed(data: seq<byte>, pos: nat): (r: Result<Read<int>>)
    ensures r.Ok? ==> pos < r.value.next <= |data|
  {
    var end :- LebEnd(data, pos, 0);
    Ok(Read(SlebMeaning(data[pos..end]), end))
  }

  /** The pointer of `set_loc`; only a signed LEB128 number is read otherwise than by the debugger. */
  function Location(env: Env, data: seq<byte>, pos: nat): (r: Result<Read<u64>>)
    ensures r.Ok? ==> pos < r.value.next
  {
    if env.pointerEncoding % 16 != 9 then PointerAt(data, pos, env.pointerEncoding, env.bases)
    else
      var base :- BaseOf(env.pointerEncoding, pos, env.bases);
      var v :- Signed(data, pos);
      Ok(Read(Wrap64(base + v.value), v.next))
  }

  function OperandsAt(env: Env, data: seq<byte>, pos: nat, shape: Shape): (r: Result<Operands>)
    ensures r.Ok? ==> pos <= r.value.next
  {
    match shape
    case Bare => Ok(Operands(0, 0, pos))
    case Sized(size) =>
      var a :- IntAt(data, pos, size);
      Ok(Operands(a.value, a.value, a.next))
    case Pointer =>
      var a :- Location(env, data, pos);
      Ok(Operands(a.value, a.value, a.next))
    case One =>
      var a :- Unsigned(data, pos);
      Ok(Operands(a.value, a.value, a.next))
    case Two =>
      var a :- Unsigned(data, pos);
      var v :- Unsigned(data, a.next);
      Ok(Operands(a.value, v.value, v.next))
    case OneSigned =>
      var v :- Signed(data, pos);
      Ok(Operands(0, v.value, v.next))
    case RegisterSigned =>
      var a :- Unsigned(data, pos);
      var v :- Signed(data, a.next);
      Ok(Operands(a.value, v.value, v.next))
    case Unknown => Err(UnknownOpcode)
  }

  /** The instruction of an opcode, a register or delta `a`, and an offset. */
  function Instruction(env: Env, op: byte, a: nat, offset: int): Instr {
    if op >= 0xc0 then Restore(op - 0xc0)
    else if op >= 0x80 then Define(op - 0x80, AtOffset(offset))
    else if op >= 0x40 then Advance(Scaled(env, op - 0x40))
    else
      match op
      case 0x01 => SetLocation(Wrap64(a))
      case 0x02 | 0x03 | 0x04 => Advance(Scaled(env, a))
      case 0x05 | 0x11 => Define(a, AtOffset(offset))
      case 0x06 => Restore(a)
      case 0x07 => Define(a, Undefined)
      case 0x08 => Define(a, SameValue)
      case 0x09 => Define(a, InRegister(if offset >= 0 then offset else 0))
      case 0x0a => Remember
      case 0x0b => RestoreState
      case 0x0c | 0x12 => DefCfa(a, offset)
      case 0x0d => DefCfaRegister(a)
      case 0x0e | 0x13 => DefCfaOffset(offset)
      case 0x14 | 0x15 => Define(a, ValOffset(offset))
      case _ => Ignored
  }

  /** The offsets that are multiples of the data alignment factor. */
  predicate IsFactored(op: byte) {
    0x80 <= op < 0xc0 || op in {0x05, 0x11, 0x12, 0x13, 0x14, 0x15}
  }

  function Offset(env: Env, op: byte, v: int): int {
    if IsFactored(op) then v * env.dataAlign else v
  }

  /** Registers are numbered in 32 bits. */
  predicate Numbered(op: byte, a: nat, v: int) {
    && (op in {0x05, 0x06, 0x07, 0x08, 0x09, 0x0c, 0x0d, 0x11, 0x12, 0x14, 0x15} ==> a < TWO_32)
    && (op == 0x09 ==> v < TWO_32)
  }

  function StandardAt(env: Env, data: seq<byte>, pos: nat): (r: Result<Read<Instr>>)
    ensures r.Ok? ==> pos < r.value.next
  {
    if pos >= |data| then Err(OutOfData)
    else
      var o :- OperandsAt(env, data, pos + 1, ShapeOf(data[pos]));
      if Numbered(data[pos], o.a, o.v) then Ok(Read(Instruction(env, data[pos], o.a, Offset(env, data[pos], o.v)), o.next))
      else Err(NotFound)
  }

  /** The instructions of a program. */
  function Standard(env: Env, data: seq<byte>, pos: nat): Result<seq<Instr>>
    decreases |data| - pos
  {
    if pos >= |data| then Ok([])
    else
      var i :- StandardAt(env, data, pos);
      var rest :- Standard(env, data, i.next);
      Ok([i.value] + rest)
  }

  // ----- The debugger's reading of an operand -----

  /** By how much the signed reader overshoots. */
  function Excess(bs: seq<byte>): nat
    requires bs != []
  {
    if 1 < |bs| <= 9 && SlebMeaning(bs) < 0 then Pow128(|bs|) else 0
  }

  lemma SignedReading(data: seq<byte>, pos: nat)
    requires LebEnd(data, pos, 0).Ok?
    ensures IsLeb(data[pos..LebEnd(data, pos, 0).value])
    ensures SlebAt(data, pos).Ok? && SlebAt(data, pos).value.next == LebEnd(data, pos, 0).value
    ensures var bs := data[pos..LebEnd(data, pos, 0).value];
            Wrap64(SlebAt(data, pos).value.value) == Wrap64(SlebMeaning(bs) + Excess(bs))
  {
    var end := LebEnd(data, pos, 0).value;
    var bs := data[pos..end];
    LebShape(data, pos, 0);
    if |bs| <= 9 {
      SlebDeparture(data, pos, bs);
    } else {
      Pow128Nine();
      var g := Groups(bs);
      assert SlebAt(data, pos).value.value == Signed64(Wrap64(g));
      assert Wrap64(g - 0x80 * TWO_63) == Wrap64(g) by {
        assert g - 0x80 * TWO_63 == g - 0x40 * TWO_64;
      }
    }
  }

  lemma {:induction false} LebShape(data: seq<byte>, pos: nat, count: nat)
    requires LebEnd(data, pos, count).Ok?
    ensures IsLeb(data[pos..LebEnd(data, pos, count).value])
    decreases |data| - pos
  {
    if data[pos] >= 0x80 {
      LebShape(data, pos + 1, count + 1);
      var end := LebEnd(data, pos, count).value;
      var bs, rest := data[pos..end], data[pos + 1..end];
      forall i | 0 <= i < |bs| - 1 ensures bs[i] >= 0x80 {
        assert i > 0 ==> bs[i] == rest[i - 1];
      }
      assert bs[|bs| - 1] == rest[|rest| - 1];
    }
  }

  // ----- Arithmetic modulo 2^64 -----

  predicate InWord(x: int) {
    -TWO_63 <= x < TWO_63
  }

  lemma WordExactly(x: int)
    ensures Signed64(Wrap64(x)) == x <==> InWord(x)
    ensures Wrap64(Signed64(Wrap64(x))) == Wrap64(x)
  {
    var w := Wrap64(x);
    if w >= TWO_63 {
      assert (w - TWO_64) % TWO_64 == w;
    }
    if InWord(x) && x < 0 {
      assert x % TWO_64 == x + TWO_64;
    }
  }

  lemma SameProduct(x: int, y: int, d: int)
    requires Wrap64(x) == Wrap64(y)
    ensures Wrap64(x * d) == Wrap64(y * d)
  {
    var k := x / TWO_64 - y / TWO_64;
    assert x == y + k * TWO_64;
    assert x * d == y * d + (k * d) * TWO_64;
    Multiple(y * d, k * d);
  }

  lemma Multiple(x: int, k: int)
    ensures Wrap64(x + k * TWO_64) == Wrap64(x)
  {
  }

  lemma NoChange(x: int, y: int)
    ensures Wrap64(x + y) == Wrap64(x) <==> Wrap64(y) == 0
  {
  }

  /** A signed operand that is read as `w` modulo 2^64 and factored gives the exact offset if and only if that
      fits in a word and the factored error is a multiple of 2^64. */
  lemma FactoredExactly(env: Env, v: int, excess: nat, w: int)
    requires Wrap64(w) == Wrap64(v + excess)
    ensures Factored(env, w) == v * env.dataAlign <==> InWord(v * env.dataAlign) && Wrap64(excess * env.dataAlign) == 0
  {
    var d := env.dataAlign;
    SameProduct(w, v + excess, d);
    assert (v + excess) * d == v * d + excess * d;
    var x, y := v * d, excess * d;
    WordExactly(x);
    WordExactly(x + y);
    NoChange(x, y);
  }

  // ----- Where the debugger decodes the same instruction -----

  predicate IsSigned(op: byte) {
    op in {0x11, 0x12, 0x13, 0x15}
  }

  /** Where the last operand starts, of those that start at `pos`. */
  function Last(data: seq<byte>, pos: nat, op: byte): nat {
    if (ShapeOf(op).Two? || ShapeOf(op).RegisterSigned?) && LebEnd(data, pos, 0).Ok? then LebEnd(data, pos, 0).value else pos
  }

  /** The last operand as the debugger reads it. */
  function ReadBack(data: seq<byte>, pos: nat, op: byte, v: int): int {
    if !IsSigned(op) then Wrap64(v)
    else if SlebAt(data, Last(data, pos, op)).Ok? then SlebAt(data, Last(data, pos, op)).value.value
    else 0
  }

  /** The excess of a signed operand that ends at `next`. */
  function Overshoot(data: seq<byte>, pos: nat, op: byte, next: nat): nat {
    if Last(data, pos, op) < next <= |data| then Excess(data[Last(data, pos, op)..next]) else 0
  }

  /** The debugger's instruction: the standard's, with the offset that it reads. */
  function Seen(env: Env, op: byte, a: nat, w: int): Instr {
    Instruction(env, op, a, if IsFactored(op) then Factored(env, w) else if op in {0x0c, 0x0e} then Signed64(Wrap64(w)) else w)
  }

  /** The offset is the one that the debugger reads: factored, it fits in 64 bits and a signed operand's
      excess is lost with the higher bits; not factored, it fits in 63. A location of `set_loc` given as a
      signed number has no excess. */
  predicate Exact(env: Env, data: seq<byte>, pos: nat, op: byte, o: Operands) {
    if IsFactored(op) then
      InWord(o.v * env.dataAlign) && (IsSigned(op) ==> Wrap64(Overshoot(data, pos, op, o.next) * env.dataAlign) == 0)
    else
      && (op in {0x0c, 0x0e} ==> o.v < TWO_63)
      && (op == 0x01 && env.pointerEncoding % 16 == 9 ==> Overshoot(data, pos, op, o.next) == 0)
  }

  lemma UnsignedReading(data: seq<byte>, pos: nat)
    ensures Unsigned(data, pos).Ok? <==> UlebAt(data, pos).Ok?
    ensures Unsigned(data, pos).Ok? ==>
              UlebAt(data, pos) == Ok(Read(Wrap64(Unsigned(data, pos).value.value), Unsigned(data, pos).value.next))
  {
  }

  lemma SignedEnds(data: seq<byte>, pos: nat)
    ensures Signed(data, pos).Ok? <==> SlebAt(data, pos).Ok?
    ensures Signed(data, pos).Ok? ==> SlebAt(data, pos).value.next == Signed(data, pos).value.next
  {
  }

  /** Registers, being numbered in 32 bits, are read as they are. */
  lemma RegisterReading(v: nat)
    requires v < TWO_32
    ensures Wrap64(v) == v && Reg(v) == v
  {
  }

  /** The operands can be read. */
  ghost predicate Readable(env: Env, data: seq<byte>, pos: nat, op: byte, o: Operands) {
    OperandsAt(env, data, pos, ShapeOf(op)) == Ok(o) && Numbered(op, o.a, o.v)
  }

  /** Decoding gives the debugger's instruction, and ends where the standard's ends. */
  ghost predicate Matches(r: Result<Read<Instr>>, env: Env, data: seq<byte>, pos: nat, op: byte, o: Operands) {
    r == Ok(Read(Seen(env, op, o.a, ReadBack(data, pos, op, o.v)), o.next))
  }

  lemma OneOperandRule(env: Env, data: seq<byte>, pos: nat, op: byte, o: Operands)
    requires op in {0x06, 0x07, 0x08} && Readable(env, data, pos, op, o)
    ensures Matches(DecodeRule(env, data, pos, op), env, data, pos, op, o)
  {
    UnsignedReading(data, pos);
    RegisterReading(o.a);
  }

  lemma TwoOperandRule(env: Env, data: seq<byte>, pos: nat, op: byte, o: Operands)
    requires op in {0x05, 0x09, 0x14} && Readable(env, data, pos, op, o)
    ensures Matches(DecodeRule(env, data, pos, op), env, data, pos, op, o)
  {
    UnsignedReading(data, pos);
    UnsignedReading(data, Unsigned(data, pos).value.next);
    RegisterReading(o.a);
    if op == 0x09 {
      RegisterReading(o.v);
    }
  }

  lemma SignedRule(env: Env, data: seq<byte>, pos: nat, op: byte, o: Operands)
    requires op in {0x11, 0x15} && Readable(env, data, pos, op, o)
    ensures Matches(DecodeRule(env, data, pos, op), env, data, pos, op, o)
  {
    UnsignedReading(data, pos);
    SignedEnds(data, Unsigned(data, pos).value.next);
    RegisterReading(o.a);
  }

  lemma CfaRules(env: Env, data: seq<byte>, pos: nat, op: byte, o: Operands)
    requires op in {0x0c, 0x0e, 0x12, 0x13} && Readable(env, data, pos, op, o)
    ensures Matches(DecodeCfa(env, data, pos, op), env, data, pos, op, o)
  {
    UnsignedReading(data, pos);
    SignedEnds(data, pos);
    if op in {0x0c, 0x12} {
      RegisterReading(o.a);
      UnsignedReading(data, Unsigned(data, pos).value.next);
      SignedEnds(data, Unsigned(data, pos).value.next);
    }
  }

  lemma Advances(env: Env, data: seq<byte>, pos: nat, op: byte, o: Operands)
    requires op in {0x00, 0x02, 0x03, 0x04} && Readable(env, data, pos, op, o)
    ensures Matches(DecodeLocation(env, data, pos, op), env, data, pos, op, o)
  {
  }

  lemma Primary(env: Env, data: seq<byte>, pos: nat, o: Operands)
    requires pos < |data| && data[pos] >= 0x40 && Readable(env, data, pos + 1, data[pos], o)
    ensures Matches(DecodeAt(env, data, pos), env, data, pos + 1, data[pos], o)
  {
    UnsignedReading(data, pos + 1);
  }

  lemma RuleOpcodes(env: Env, data: seq<byte>, pos: nat, op: byte, o: Operands)
    requires op in {0x05, 0x06, 0x07, 0x08, 0x09, 0x11, 0x14, 0x15} && Readable(env, data, pos, op, o)
    ensures Matches(DecodeRule(env, data, pos, op), env, data, pos, op, o)
  {
    if op in {0x06, 0x07, 0x08} {
      OneOperandRule(env, data, pos, op, o);
    } else if op in {0x05, 0x09, 0x14} {
      TwoOperandRule(env, data, pos, op, o);
    } else {
      SignedRule(env, data, pos, op, o);
    }
  }

  lemma Extended(env: Env, data: seq<byte>, pos: nat, op: byte, o: Operands)
    requires op < 0x40 && op !in {0x01, 0x0d} && Readable(env, data, pos, op, o)
    ensures Matches(DecodeExtended(env, data, pos, op), env, data, pos, op, o)
  {
    if op in {0x0c, 0x0e, 0x12, 0x13} {
      CfaRules(env, data, pos, op, o);
    } else if op in {0x00, 0x02, 0x03, 0x04} {
      Advances(env, data, pos, op, o);
    } else if op !in {0x0a, 0x0b} {
      RuleOpcodes(env, data, pos, op, o);
    }
  }

  /** The debugger decodes every instruction of the standard's at its place, except `def_cfa_register` and
      `set_loc`, with the offset that it reads. */
  lemma DecodesAsSeen(env: Env, data: seq<byte>, pos: nat, o: Operands)
    requires pos < |data| && data[pos] !in {0x01, 0x0d} && Readable(env, data, pos + 1, data[pos], o)
    ensures Matches(DecodeAt(env, data, pos), env, data, pos + 1, data[pos], o)
  {
    if data[pos] >= 0x40 {
      Primary(env, data, pos, o);
    } else {
      ExtendedAt(env, data, pos);
      Extended(env, data, pos + 1, data[pos], o);
    }
  }

  lemma ExtendedAt(env: Env, data: seq<byte>, pos: nat)
    requires pos < |data| && data[pos] < 0x40
    ensures DecodeAt(env, data, pos) == DecodeExtended(env, data, pos + 1, data[pos])
  {
  }

  /** A signed operand lies between the start of the last operand and the end of the instruction. */
  lemma SignedPlace(env: Env, data: seq<byte>, pos: nat, op: byte, o: Operands)
    requires IsSigned(op) && Readable(env, data, pos, op, o)
    ensures Signed(data, Last(data, pos, op)) == Ok(Read(o.v, o.next))
  {
  }

  lemma SignedSeen(env: Env, data: seq<byte>, pos: nat, op: byte, v: int, next: nat)
    requires IsSigned(op) && Signed(data, Last(data, pos, op)) == Ok(Read(v, next))
    ensures Factored(env, ReadBack(data, pos, op, v)) == v * env.dataAlign
       <==> InWord(v * env.dataAlign) && Wrap64(Overshoot(data, pos, op, next) * env.dataAlign) == 0
  {
    SignedReading(data, Last(data, pos, op));
    FactoredExactly(env, v, Overshoot(data, pos, op, next), ReadBack(data, pos, op, v));
  }

  /** A factored operand. */
  lemma FactoredSeen(env: Env, data: seq<byte>, pos: nat, op: byte, o: Operands)
    requires IsFactored(op) && Readable(env, data, pos, op, o)
    ensures Factored(env, ReadBack(data, pos, op, o.v)) == o.v * env.dataAlign <==> Exact(env, data, pos, op, o)
  {
    if IsSigned(op) {
      SignedPlace(env, data, pos, op, o);
      SignedSeen(env, data, pos, op, o.v, o.next);
    } else {
      FactoredExactly(env, o.v, 0, Wrap64(o.v));
    }
  }

  /** The debugger's instruction is the standard's exactly when the operand is exact. */
  lemma SeenExactly(env: Env, data: seq<byte>, pos: nat, op: byte, o: Operands)
    requires op != 0x01 && Readable(env, data, pos, op, o)
    ensures Seen(env, op, o.a, ReadBack(data, pos, op, o.v)) == Instruction(env, op, o.a, Offset(env, op, o.v))
       <==> Exact(env, data, pos, op, o)
  {
    if IsFactored(op) {
      FactoredSeen(env, data, pos, op, o);
    } else if op == 0x09 {
      RegisterReading(o.v);
    }
  }

  lemma SignedPointer(env: Env, data: seq<byte>, pos: nat, base: int)
    requires env.pointerEncoding % 16 == 9 && BaseOf(env.pointerEncoding, pos, env.bases) == Ok(base) && SlebAt(data, pos).Ok?
    ensures PointerAt(data, pos, env.pointerEncoding, env.bases)
         == Ok(Read(Wrap64(base + SlebAt(data, pos).value.value), SlebAt(data, pos).value.next))
  {
  }

  lemma LocationExactly(env: Env, data: seq<byte>, pos: nat)
    requires Location(env, data, pos).Ok?
    ensures var mine, v := PointerAt(data, pos, env.pointerEncoding, env.bases), Location(env, data, pos).value;
            && mine.Ok? && mine.value.next == v.next
            && (mine.value.value == v.value <==> (env.pointerEncoding % 16 == 9 ==> Overshoot(data, pos, 0x01, v.next) == 0))
  {
    if env.pointerEncoding % 16 == 9 {
      SignedLocationAt(env, data, pos, BaseOf(env.pointerEncoding, pos, env.bases).value, Signed(data, pos).value);
    }
  }

  lemma SignedLocationAt(env: Env, data: seq<byte>, pos: nat, base: int, v: Read<int>)
    requires env.pointerEncoding % 16 == 9 && BaseOf(env.pointerEncoding, pos, env.bases) == Ok(base) && Signed(data, pos) == Ok(v)
    ensures var mine := PointerAt(data, pos, env.pointerEncoding, env.bases);
            && mine.Ok? && mine.value.next == v.next
            && (mine.value.value == Wrap64(base + v.value) <==> Excess(data[pos..v.next]) == 0)
  {
    SignedReading(data, pos);
    SignedPointer(env, data, pos, base);
    SignedLocation(base, SlebAt(data, pos).value.value, v.value, data[pos..v.next]);
  }

  lemma SignedLocation(base: int, w: int, v: int, bs: seq<byte>)
    requires bs != [] && Wrap64(w) == Wrap64(v + Excess(bs))
    ensures Wrap64(base + w) == Wrap64(base + v) <==> Excess(bs) == 0
  {
    SameSum(base, w, v, Excess(bs));
    ExcessSize(bs);
  }

  lemma ExcessSize(bs: seq<byte>)
    requires bs != []
    ensures Excess(bs) < TWO_64
  {
    if 1 < |bs| <= 9 {
      Pow128Nine();
      Pow128Monotone(|bs|, 9);
    }
  }

  lemma SameSum(base: int, w: int, v: int, excess: nat)
    requires Wrap64(w) == Wrap64(v + excess)
    ensures excess < TWO_64 ==> (Wrap64(base + w) == Wrap64(base + v) <==> excess == 0)
  {
    var k := w / TWO_64 - (v + excess) / TWO_64;
    assert w == v + excess + k * TWO_64;
    Multiple(base + v + excess, k);
    NoChange(base + v, excess);
  }
}
