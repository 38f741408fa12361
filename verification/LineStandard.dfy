/** The line-number instructions of section 6.2.5 of DWARF 4, for the tables that the debugger accepts
    (instructions of one byte, one operation each), and exactly when its own machine agrees with them. */
module LineStandard {
  import opened Words
  import opened Cursors
  import opened LineTables

  /** At most the twelve standard opcodes of the standard, as the header's check of their lengths asks. */
  predicate Accepted(t: Table) {
    1 <= t.opcodeBase <= 13
  }

  // ----- The standard's machine -----

  /** An unsigned operand. */
  function UnsignedWord(data: seq<byte>, pos: nat): (r: Result<Read<u64>>)
    ensures r.Ok? ==> pos < r.value.next <= |data|
  {
    var end :- LebEnd(data, pos, 0);
    Ok(Read(Wrap64(Groups(data[pos..end])), end))
  }

  /** A signed operand, modulo 2^64. */
  function SignedWord(data: seq<byte>, pos: nat): (r: Result<Read<u64>>)
    ensures r.Ok? ==> pos < r.value.next <= |data|
  {
    var end :- LebEnd(data, pos, 0);
    Ok(Read(Wrap64(SlebMeaning(data[pos..end])), end))
  }

  function Meant(t: Table, pos: nat, r: Row): (e: Result<Executed>)
    ensures e.Ok? ==> pos < e.value.next
  {
    if pos >= |t.data| then Err(OutOfData)
    else if t.data[pos] == 0 then MeantExtended(t, pos + 1, r)
    else if t.data[pos] < t.opcodeBase then MeantStandard(t, pos + 1, t.data[pos], r)
    else
      var adjusted := t.data[pos] - t.opcodeBase;
      var row := r.(address := Wrap64(r.address + Quotient(adjusted, t.lineRange)),
                    line := Wrap64(r.line + t.lineBase + Remainder(adjusted, t.lineRange)));
      Ok(Executed(row.(basicBlock := false, prologueEnd := false, epilogueBegin := false, discriminator := 0), Some(row), pos + 1))
  }

  function MeantStandard(t: Table, pos: nat, opcode: byte, r: Row): (e: Result<Executed>)
    ensures e.Ok? ==> pos <= e.value.next
  {
    match opcode
    case 1 =>                                                                  // copy
      Ok(Executed(r.(basicBlock := false, prologueEnd := false, epilogueBegin := false, discriminator := 0), Some(r), pos))
    case 2 =>                                                                  // advance_pc
      var d :- UnsignedWord(t.data, pos);
      Ok(Executed(r.(address := Wrap64(r.address + d.value)), None, d.next))
    case 3 =>                                                                  // advance_line
      var d :- SignedWord(t.data, pos);
      Ok(Executed(r.(line := Wrap64(r.line + d.value)), None, d.next))
    case 4 =>                                                                  // set_file
      var f :- UnsignedWord(t.data, pos);
      Ok(Executed(r.(fileIndex := f.value), None, f.next))
    case 5 =>                                                                  // set_column
      var c :- UnsignedWord(t.data, pos);
      Ok(Executed(r.(column := c.value), None, c.next))
    case 6 => Ok(Executed(r.(isStmt := !r.isStmt), None, pos))                 // negate_stmt
    case 7 => Ok(Executed(r.(basicBlock := true), None, pos))                  // set_basic_block
    case 8 =>                                                                  // const_add_pc
      Ok(Executed(r.(address := Wrap64(r.address + Quotient(255 - t.opcodeBase, t.lineRange))), None, pos))
    case 9 =>                                                                  // fixed_advance_pc
      var d :- IntAt(t.data, pos, 2);
      Ok(Executed(r.(address := Wrap64(r.address + d.value)), None, d.next))
    case 10 => Ok(Executed(r.(prologueEnd := true), None, pos))                // set_prologue_end
    case 11 => Ok(Executed(r.(epilogueBegin := true), None, pos))              // set_epilogue_begin
    case 12 =>                                                                 // set_isa
      var isa :- UnsignedWord(t.data, pos);
      Ok(Executed(r, None, isa.next))
    case _ => Err(UnknownOpcode)
  }

  /** An extended instruction fills its length exactly; one that the standard does not name is skipped. */
  function MeantExtended(t: Table, pos: nat, r: Row): (e: Result<Executed>)
    ensures e.Ok? ==> pos <= e.value.next
  {
    var length :- UnsignedWord(t.data, pos);
    var op :- IntAt(t.data, length.next, 1);
    var end := length.next + length.value;
    var executed :- MeantOperands(t, op.next, op.value, r, end);
    if executed.next == end && end <= |t.data| then Ok(executed) else Err(InvalidSize)
  }

  function MeantOperands(t: Table, pos: nat, op: nat, r: Row, end: nat): Result<Executed> {
    match op
    case 1 => Ok(Executed(Initial(t), Some(r.(endSequence := true)), pos))     // end_sequence
    case 2 =>                                                                  // set_address
      var a :- IntAt(t.data, pos, 8);
      Ok(Executed(r.(address := Wrap64(a.value)), None, a.next))
    case 3 =>                                                                  // define_file
      var dir :- UnsignedWord(t.data, StringEnd(t.data, pos));
      var time :- UnsignedWord(t.data, dir.next);
      var size :- UnsignedWord(t.data, time.next);
      Ok(Executed(r, None, size.next))
    case 4 =>                                                                  // set_discriminator
      var d :- UnsignedWord(t.data, pos);
      Ok(Executed(r.(discriminator := d.value), None, d.next))
    case _ => Ok(Executed(r, None, end))
  }

  // ----- One instruction of the standard's, run by the debugger -----

  datatype Ran = Ran(pos: nat, registers: Row, rows: seq<Row>)

  function Emitted(e: Executed): seq<Row> {
    if e.emitted.Some? then [e.emitted.value] else []
  }

  /** The debugger's instructions from `pos` on until it reaches `target` or passes it. */
  function RunTo(t: Table, pos: nat, r: Row, target: nat): Result<Ran>
    decreases target - pos
  {
    if pos >= target then Ok(Ran(pos, r, []))
    else
      var e :- InstructionAt(t, pos, r);
      Later(Emitted(e), RunTo(t, e.next, e.registers, target))
  }

  function Later(rows: seq<Row>, rest: Result<Ran>): Result<Ran> {
    if rest.Ok? then Ok(rest.value.(rows := rows + rest.value.rows)) else rest
  }

  /** At the end of the standard's instruction the debugger stands in the same place with the same registers
      and has emitted the same row. */
  predicate Follows(t: Table, pos: nat, r: Row, e: Executed) {
    RunTo(t, pos, r, e.next) == Ok(Ran(e.next, e.registers, Emitted(e)))
  }

  /** Run as an opcode, this operand byte of `set_isa` changes nothing and takes no operand. */
  predicate QuietOpcode(t: Table, b: byte, r: Row) {
    0 < b < t.opcodeBase
    && match b
       case 7 => r.basicBlock
       case 8 => Quotient(255 - t.opcodeBase, t.lineRange) == 0
       case 10 => r.prologueEnd
       case 11 => r.epilogueBegin
       case 12 => true
       case _ => false
  }

  /** By opcode and operand: `advance_pc` by less than 64, or by an operand of two or more bytes; no
      `advance_line` and no `set_column`; `set_file` to what both the file and the column are already;
      `set_isa` with a quiet operand of one byte; only extended opcodes that the standard names. */
  predicate Compatible(t: Table, pos: nat, r: Row) {
    pos + 1 < |t.data| ==>
      var operand := t.data[pos + 1];
      if t.data[pos] >= t.opcodeBase then true
      else
        match t.data[pos]
        case 0 => SubOpcode(t, pos) in {1, 2, 3, 4}
        case 2 => !(0x40 <= operand < 0x80)
        case 3 => false
        case 4 => UnsignedWord(t.data, pos + 1).Ok? && r.fileIndex == r.column == UnsignedWord(t.data, pos + 1).value.value
        case 5 => false
        case 12 => operand < 0x80 && QuietOpcode(t, operand, r)
        case _ => true
  }

  function SubOpcode(t: Table, pos: nat): nat {
    var length := UlebAt(t.data, pos + 1);
    if length.Ok? && IntAt(t.data, length.value.next, 1).Ok? then IntAt(t.data, length.value.next, 1).value.value else 0
  }

  /** Where the instruction is one of the debugger's with the same end, following is having the same outcome. */
  lemma OneStep(t: Table, pos: nat, r: Row, e: Executed)
    requires pos < e.next
    requires InstructionAt(t, pos, r).Ok? ==> InstructionAt(t, pos, r).value.next == e.next
    ensures Follows(t, pos, r, e) <==> InstructionAt(t, pos, r) == Ok(e)
  {
    var mine := InstructionAt(t, pos, r);
    if mine.Ok? {
      var a, b := Emitted(mine.value), Emitted(e);
      assert a + [] == a;
      assert RunTo(t, e.next, mine.value.registers, e.next) == Ok(Ran(e.next, mine.value.registers, []));
      assert RunTo(t, pos, r, e.next) == Ok(Ran(e.next, mine.value.registers, a));
      assert a == b ==> mine.value.emitted == e.emitted by {
        if a == b && a != [] {
          assert a[0] == b[0];
        }
      }
    }
  }

  /** The unsigned operand and the one that the signed reader gives, modulo 2^64. */
  lemma AdvancePc(data: seq<byte>, pos: nat, address: u64)
    ensures UnsignedWord(data, pos).Ok? <==> SlebAt(data, pos).Ok?
    ensures UnsignedWord(data, pos).Ok? ==>
              var u, v := UnsignedWord(data, pos).value, SlebAt(data, pos).value;
              u.next == v.next && (Wrap64(address + u.value) == Wrap64(address + v.value) <==> !(0x40 <= data[pos] < 0x80))
  {
    var end := LebEnd(data, pos, 0);
    if end.Ok? {
      if data[pos] < 0x80 {
        assert data[pos..end.value] == [data[pos]];
        OneGroup(data[pos]);
      } else {
        SignedWraps(address, Wrap64(Groups(data[pos..end.value])));
      }
    }
  }

  lemma SignedWraps(address: u64, v: u64)
    ensures Wrap64(address + Signed64(v)) == Wrap64(address + v)
  {
    if v >= TWO_63 {
      assert address + v == address + (v - TWO_64) + TWO_64;
    }
  }

  lemma ExtendedExactly(t: Table, pos: nat, r: Row)
    requires Accepted(t) && pos < |t.data| && t.data[pos] == 0 && Meant(t, pos, r).Ok?
    ensures Follows(t, pos, r, Meant(t, pos, r).value) <==> SubOpcode(t, pos) in {1, 2, 3, 4}
  {
    var e := Meant(t, pos, r).value;
    if SubOpcode(t, pos) in {1, 2, 3, 4} {
      assert InstructionAt(t, pos, r) == Ok(e);
    } else {
      assert InstructionAt(t, pos, r).Err?;
    }
    OneStep(t, pos, r, e);
  }

  lemma StandardExactly(t: Table, pos: nat, r: Row)
    requires Accepted(t) && pos < |t.data| && 0 < t.data[pos] < t.opcodeBase && t.data[pos] != 12 && Meant(t, pos, r).Ok?
    ensures Follows(t, pos, r, Meant(t, pos, r).value) <==> Compatible(t, pos, r)
  {
    var e := Meant(t, pos, r).value;
    if t.data[pos] == 2 {
      AdvancePc(t.data, pos + 1, r.address);
    }
    OneStep(t, pos, r, e);
  }

  /** `set_isa` itself does nothing; what follows depends on its operand run as an instruction. */
  lemma SetIsaExactly(t: Table, pos: nat, r: Row)
    requires Accepted(t) && pos < |t.data| && t.data[pos] == 12 < t.opcodeBase && Meant(t, pos, r).Ok?
    ensures Follows(t, pos, r, Meant(t, pos, r).value) <==> t.data[pos + 1] < 0x80 && QuietOpcode(t, t.data[pos + 1], r)
  {
    var next := Meant(t, pos, r).value.next;
    assert InstructionAt(t, pos, r) == Ok(Executed(r, None, pos + 1));
    var after := RunTo(t, pos + 1, r, next);
    assert after.Ok? ==> [] + after.value.rows == after.value.rows;
    OperandExactly(t, pos + 1, r, next);
  }

  lemma OperandExactly(t: Table, pos: nat, r: Row, next: nat)
    requires Accepted(t) && LebEnd(t.data, pos, 0) == Ok(next)
    ensures RunTo(t, pos, r, next) == Ok(Ran(next, r, [])) <==> t.data[pos] < 0x80 && QuietOpcode(t, t.data[pos], r)
  {
    var b, e := t.data[pos], InstructionAt(t, pos, r);
    if e.Ok? {
      var rest := RunTo(t, e.value.next, e.value.registers, next);
      if b >= t.opcodeBase || b == 1 {
        assert rest.Ok? ==> Emitted(e.value) + rest.value.rows != [];
      } else if e.value.next > next {
        assert rest == Ok(Ran(e.value.next, e.value.registers, []));
      } else {
        QuietExactly(t, pos, r);
        assert Emitted(e.value) + [] == [];
      }
    }
  }

  /** Among the opcodes below the base that take no operand and emit no row. */
  lemma QuietExactly(t: Table, pos: nat, r: Row)
    requires Accepted(t) && pos < |t.data| && 1 < t.data[pos] < t.opcodeBase
    requires InstructionAt(t, pos, r).Ok? && InstructionAt(t, pos, r).value.next == pos + 1
    ensures InstructionAt(t, pos, r) == Ok(Executed(r, None, pos + 1)) <==> QuietOpcode(t, t.data[pos], r)
  {
    QuotientSmall(255 - t.opcodeBase, t.lineRange);
  }

  lemma {:induction false} QuotientSmall(a: nat, range: Range)
    ensures Quotient(a, range) <= a
  {
    if a >= range {
      QuotientSmall(a - range, range);
    }
  }

  /** Exactly which instructions of the standard the debugger follows. */
  lemma FollowsExactly(t: Table, pos: nat, r: Row)
    requires Accepted(t) && Meant(t, pos, r).Ok?
    ensures Follows(t, pos, r, Meant(t, pos, r).value) <==> Compatible(t, pos, r)
  {
    if t.data[pos] >= t.opcodeBase {
      assert InstructionAt(t, pos, r) == Meant(t, pos, r);
      OneStep(t, pos, r, Meant(t, pos, r).value);
    } else if t.data[pos] == 0 {
      ExtendedExactly(t, pos, r);
    } else if t.data[pos] == 12 {
      SetIsaExactly(t, pos, r);
    } else {
      StandardExactly(t, pos, r);
    }
  }

  // ----- Programs -----

  /** The standard's machine after `k` instructions, with all the rows so far. */
  function After(t: Table, k: nat): Result<Ran>
    decreases k
  {
    if k == 0 then Ok(Ran(0, Initial(t), []))
    else
      var s :- After(t, k - 1);
      var e :- Meant(t, s.pos, s.registers);
      Ok(Ran(e.next, e.registers, s.rows + Emitted(e)))
  }

  lemma LaterTwice(a: seq<Row>, b: seq<Row>, rest: Result<Ran>)
    ensures Later(a, Later(b, rest)) == Later(a + b, rest) && Later([], rest) == rest
  {
    if rest.Ok? {
      assert a + (b + rest.value.rows) == (a + b) + rest.value.rows && [] + rest.value.rows == rest.value.rows;
    }
  }

  lemma {:induction false} RunToCompose(t: Table, pos: nat, r: Row, a: nat, b: nat)
    requires a <= b && RunTo(t, pos, r, a).Ok?
    ensures var s := RunTo(t, pos, r, a).value;
            RunTo(t, pos, r, b) == Later(s.rows, RunTo(t, s.pos, s.registers, b))
    decreases a - pos
  {
    if pos >= a {
      LaterTwice([], [], RunTo(t, pos, r, b));
    } else {
      var e := InstructionAt(t, pos, r).value;
      RunToCompose(t, e.next, e.registers, a, b);
      var s := RunTo(t, e.next, e.registers, a).value;
      LaterTwice(Emitted(e), s.rows, RunTo(t, s.pos, s.registers, b));
    }
  }

  /** After `k` instructions of the standard's, the debugger stands in the same place with the same registers
      and has emitted the same rows. */
  predicate InStep(t: Table, k: nat) {
    After(t, k).Ok? && RunTo(t, 0, Initial(t), After(t, k).value.pos) == After(t, k)
  }

  /** Instruction `k` is compatible with the registers that it meets. */
  predicate CompatibleAt(t: Table, k: nat) {
    After(t, k).Ok? && Compatible(t, After(t, k).value.pos, After(t, k).value.registers)
  }

  lemma StepInStep(t: Table, k: nat)
    requires Accepted(t) && After(t, k + 1).Ok? && InStep(t, k)
    ensures InStep(t, k + 1) <==> CompatibleAt(t, k)
  {
    var s := After(t, k).value;
    var e := Meant(t, s.pos, s.registers).value;
    FollowsExactly(t, s.pos, s.registers);
    RunToCompose(t, 0, Initial(t), s.pos, e.next);
    var rest := RunTo(t, s.pos, s.registers, e.next);
    if rest.Ok? && s.rows + rest.value.rows == s.rows + Emitted(e) {
      assert rest.value.rows == (s.rows + rest.value.rows)[|s.rows|..] == (s.rows + Emitted(e))[|s.rows|..] == Emitted(e);
    }
  }

  /** For every program that the standard can run, the debugger's registers and rows are the standard's after
      each of its first `n` instructions if and only if each of them is compatible with the registers that it
      meets. */
  lemma AgreesExactly(t: Table, n: nat)
    requires Accepted(t) && After(t, n).Ok?
    ensures (forall k :: 0 <= k <= n ==> InStep(t, k)) <==> (forall k :: 0 <= k < n ==> CompatibleAt(t, k))
  {
    if forall k :: 0 <= k <= n ==> InStep(t, k) {
      forall k | 0 <= k < n
        ensures CompatibleAt(t, k)
      {
        assert InStep(t, k) && InStep(t, k + 1);
        StepInStep(t, k);
      }
    }
    if forall k :: 0 <= k < n ==> CompatibleAt(t, k) {
      forall k | 0 <= k <= n
        ensures InStep(t, k)
      {
        RanBefore(t, k, n);
        StaysInStep(t, 0, k);
      }
    }
  }

  lemma KeepsStep(t: Table, j: nat, k: nat)
    requires k == j + 1 && Accepted(t) && After(t, k).Ok? && InStep(t, j) && CompatibleAt(t, j)
    ensures InStep(t, k)
  {
    StepInStep(t, j);
  }

  /** From compatible to compatible instruction, up to `k`. */
  lemma {:induction false} StaysInStep(t: Table, j: nat, k: nat)
    requires Accepted(t) && After(t, k).Ok? && j <= k && InStep(t, j) && forall i :: j <= i < k ==> CompatibleAt(t, i)
    ensures InStep(t, k)
    decreases k - j
  {
    if j < k {
      RanBefore(t, j + 1, k);
      KeepsStep(t, j, j + 1);
      StaysInStep(t, j + 1, k);
    }
  }

  lemma {:induction false} RanBefore(t: Table, k: nat, n: nat)
    requires After(t, n).Ok? && k <= n
    ensures After(t, k).Ok?
    decreases n
  {
    if k < n {
      RanBefore(t, k, n - 1);
    }
  }

  lemma {:induction false} RunToEndIsBatch(t: Table, pos: nat, r: Row)
    requires pos <= |t.data| && RunTo(t, pos, r, |t.data|).Ok? && RunTo(t, pos, r, |t.data|).value.pos == |t.data|
    ensures Batch(t, pos, r) == Ok(RunTo(t, pos, r, |t.data|).value.rows)
    decreases |t.data| - pos
  {
    if pos < |t.data| {
      var e := InstructionAt(t, pos, r).value;
      if e.next <= |t.data| {
        RunToEndIsBatch(t, e.next, e.registers);
        var rest := RunTo(t, e.next, e.registers, |t.data|).value.rows;
        assert [] + rest == rest;
      }
    }
  }

  /** A program of `n` compatible instructions gives the standard's rows, and repeated `++` yields them. */
  lemma RowsAreTheStandards(t: Table, n: nat)
    requires Accepted(t) && After(t, n).Ok?
    requires forall k :: 0 <= k < n ==> CompatibleAt(t, k)
    requires After(t, n).value.pos == |t.data|
    ensures Batch(t, 0, Initial(t)) == Ok(After(t, n).value.rows)
    ensures EndsOnRow(t, 0, Initial(t)) ==> Iterated(t, 0, Initial(t)) == Ok(After(t, n).value.rows)
  {
    AgreesExactly(t, n);
    assert InStep(t, n);
    RunToEndIsBatch(t, 0, Initial(t));
    IteratedIsBatch(t, 0, Initial(t));
  }

  // ----- Witnesses -----

  /** `advance_pc` by 64 moves the address back by 64. */
  lemma AdvancePcGoesBack(t: Table, r: Row)
    requires t.data == [2, 0x40] && 2 < t.opcodeBase
    ensures Meant(t, 0, r) == Ok(Executed(r.(address := Wrap64(r.address + 64)), None, 2))
    ensures InstructionAt(t, 0, r) == Ok(Executed(r.(address := Wrap64(r.address - 64)), None, 2))
  {
    assert t.data[1..2] == [0x40];
    OneGroup(0x40);
  }

  /** `advance_line`, which almost every line program has, is rejected. */
  lemma AdvanceLineIsRejected(t: Table, r: Row)
    requires t.data == [3, 1] && 3 < t.opcodeBase
    ensures Meant(t, 0, r) == Ok(Executed(r.(line := Wrap64(r.line + 1)), None, 2))
    ensures InstructionAt(t, 0, r) == Err(UnknownOpcode)
  {
    assert t.data[1..2] == [1];
    OneGroup(1);
  }
}
