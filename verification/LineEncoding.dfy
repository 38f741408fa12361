/** A line-number program for any list of rows that special opcodes can express, and the proof that the
    iterator gives the rows back. */
module LineEncoding {
  import opened Words
  import opened Cursors
  import opened LineTables

  datatype Position = Position(address: u64, line: u64)

  /** A contiguous stretch of code: its rows, and the address just after it. */
  datatype Sequence = Sequence(rows: seq<Position>, end: u64)

  /** A row with this position and every other register as it starts. */
  function RowFor(t: Table, p: Position): Row {
    Row(p.address, 1, p.line, 0, t.defaultIsStmt, false, false, false, false, 0)
  }

  function EndRow(t: Table, from: Position, end: u64): Row {
    RowFor(t, Position(end, from.line)).(endSequence := true)
  }

  const START := Position(0, 1)

  /** What the header must allow for a special opcode of each line advance to exist. */
  predicate HasSpecials(t: Table) {
    1 <= t.opcodeBase && t.opcodeBase + t.lineRange <= 0x100
  }

  /** The line advance lies in [line_base, line_base + line_range). */
  predicate InReach(t: Table, from: Position, to: Position) {
    0 <= to.line - from.line - t.lineBase < t.lineRange
  }

  predicate Encodable(t: Table, from: Position, rows: seq<Position>)
    decreases rows
  {
    rows == [] || (InReach(t, from, rows[0]) && Encodable(t, rows[0], rows[1..]))
  }

  function SetAddress(address: u64): seq<byte> {
    [0, 9, 2] + ToBytes(address, 8)
  }

  /** `range` added up `a` times. */
  function Times(a: nat, range: nat): nat {
    if a == 0 then 0 else range + Times(a - 1, range)
  }

  /** The special opcode that advances the address and the line together, if one byte can. */
  function SpecialOpcode(t: Table, from: Position, to: Position): (op: nat)
    requires InReach(t, from, to) && to.address >= from.address
    ensures op >= t.opcodeBase
  {
    t.opcodeBase + Times(to.address - from.address, t.lineRange) + (to.line - from.line - t.lineBase)
  }

  predicate OneByte(t: Table, from: Position, to: Position)
    requires InReach(t, from, to)
  {
    to.address >= from.address && SpecialOpcode(t, from, to) < 0x100
  }

  function EncodeRow(t: Table, from: Position, to: Position): seq<byte>
    requires HasSpecials(t) && InReach(t, from, to)
  {
    if OneByte(t, from, to) then [SpecialOpcode(t, from, to)]
    else SetAddress(to.address) + [t.opcodeBase + (to.line - from.line - t.lineBase)]
  }

  function EncodeRows(t: Table, from: Position, rows: seq<Position>, end: u64): seq<byte>
    requires HasSpecials(t) && Encodable(t, from, rows)
    decreases rows
  {
    if rows == [] then SetAddress(end) + [0, 1, 1]
    else EncodeRow(t, from, rows[0]) + EncodeRows(t, rows[0], rows[1..], end)
  }

  /** The rows of a sequence as the standard expands it, the last one marking its end. */
  function Expected(t: Table, from: Position, rows: seq<Position>, end: u64): seq<Row>
    decreases rows
  {
    if rows == [] then [EndRow(t, from, end)]
    else [RowFor(t, rows[0])] + Expected(t, rows[0], rows[1..], end)
  }

  predicate AllEncodable(t: Table, sequences: seq<Sequence>) {
    && HasSpecials(t)
    && (sequences == [] || (Encodable(t, START, sequences[0].rows) && AllEncodable(t, sequences[1..])))
  }

  function EncodeAll(t: Table, sequences: seq<Sequence>): seq<byte>
    requires AllEncodable(t, sequences)
  {
    if sequences == [] then []
    else EncodeRows(t, START, sequences[0].rows, sequences[0].end) + EncodeAll(t, sequences[1..])
  }

  function ExpectedAll(t: Table, sequences: seq<Sequence>): seq<Row> {
    if sequences == [] then []
    else Expected(t, START, sequences[0].rows, sequences[0].end) + ExpectedAll(t, sequences[1..])
  }

  // ----- One instruction read back -----

  lemma SetAddressAt(t: Table, pos: nat, address: u64, rest: seq<byte>, r: Row)
    requires At(t.data, pos, SetAddress(address) + rest)
    ensures InstructionAt(t, pos, r) == Ok(Executed(r.(address := address), None, pos + 11))
    ensures At(t.data, pos + 11, rest)
  {
    AtSplit(t.data, pos, SetAddress(address), rest);
    AtSplit(t.data, pos, [0, 9, 2], ToBytes(address, 8));
    ThreeBytes(t.data, pos, 0, 9, 2);
    Pow256Values();
    LittleEndianRoundTrip(address, 8);
    assert IntAt(t.data, pos + 3, 8) == Ok(Read(address, pos + 11));
  }

  /** A zero byte, a one-byte length and an extended opcode. */
  lemma ThreeBytes(data: seq<byte>, pos: nat, a: byte, b: byte, c: byte)
    requires At(data, pos, [a, b, c]) && b < 0x80
    ensures data[pos] == a && UlebAt(data, pos + 1) == Ok(Read(b, pos + 2))
    ensures IntAt(data, pos + 2, 1) == Ok(Read(c, pos + 3))
  {
    var three := [a, b, c];
    AtIndex(data, pos, three, 0);
    AtIndex(data, pos, three, 1);
    AtIndex(data, pos, three, 2);
    assert data[pos + 1..pos + 2] == [b] && data[pos + 2..pos + 3] == [c];
    OneGroup(b);
    assert LittleEndian([c]) == c + 0x100 * LittleEndian([]);
  }

  lemma EndSequenceAt(t: Table, pos: nat, r: Row)
    requires At(t.data, pos, [0, 1, 1])
    ensures InstructionAt(t, pos, r) == Ok(Executed(Initial(t), Some(r.(endSequence := true)), pos + 3))
  {
    ThreeBytes(t.data, pos, 0, 1, 1);
  }

  lemma {:induction false} Digits(a: nat, range: Range, code: nat)
    requires code < range
    ensures Quotient(Times(a, range) + code, range) == a && Remainder(Times(a, range) + code, range) == code
  {
    if a > 0 {
      Digits(a - 1, range, code);
    }
  }

  /** A special opcode that advances the address by `a` and the line by `code` above the line base. */
  lemma SpecialAt(t: Table, pos: nat, from: Position, to: Position, op: byte)
    requires HasSpecials(t) && InReach(t, from, to) && to.address >= from.address
    requires op == SpecialOpcode(t, from, to) && At(t.data, pos, [op])
    ensures InstructionAt(t, pos, RowFor(t, from)) == Ok(Executed(RowFor(t, to), Some(RowFor(t, to)), pos + 1))
  {
    AtIndex(t.data, pos, [op], 0);
    Digits(to.address - from.address, t.lineRange, to.line - from.line - t.lineBase);
    assert Special(t, op - t.opcodeBase, RowFor(t, from)) == RowFor(t, to);
  }

  // ----- Rows and sequences read back -----

  lemma RowAt(t: Table, pos: nat, from: Position, to: Position)
    requires HasSpecials(t) && InReach(t, from, to)
    requires At(t.data, pos, EncodeRow(t, from, to))
    ensures NextRow(t, pos, RowFor(t, from)) == Ok(Step(RowFor(t, to), RowFor(t, to), pos + |EncodeRow(t, from, to)|))
  {
    if OneByte(t, from, to) {
      SpecialAt(t, pos, from, to, SpecialOpcode(t, from, to));
    } else {
      MovedRow(t, pos, from, to);
    }
  }

  lemma MovedRow(t: Table, pos: nat, from: Position, to: Position)
    requires HasSpecials(t) && InReach(t, from, to)
    requires At(t.data, pos, SetAddress(to.address) + [t.opcodeBase + (to.line - from.line - t.lineBase)])
    ensures NextRow(t, pos, RowFor(t, from)) == Ok(Step(RowFor(t, to), RowFor(t, to), pos + 12))
  {
    var op := t.opcodeBase + (to.line - from.line - t.lineBase);
    var moved := Position(to.address, from.line);
    SetAddressAt(t, pos, to.address, [op], RowFor(t, from));
    assert SpecialOpcode(t, moved, to) == op;
    SpecialAt(t, pos + 11, moved, to, op);
  }

  lemma EndAt(t: Table, pos: nat, from: Position, end: u64)
    requires At(t.data, pos, SetAddress(end) + [0, 1, 1])
    ensures NextRow(t, pos, RowFor(t, from)) == Ok(Step(EndRow(t, from, end), Initial(t), pos + 14))
  {
    SetAddressAt(t, pos, end, [0, 1, 1], RowFor(t, from));
    EndSequenceAt(t, pos + 11, RowFor(t, from).(address := end));
  }

  /** The iterator, from `pos` with registers `r`, yields these rows and is then at `next` with `r'`. */
  ghost predicate Yields(t: Table, pos: nat, r: Row, rows: seq<Row>, next: nat, r': Row)
    decreases |rows|
  {
    if rows == [] then pos == next && r == r'
    else
      var s := NextRow(t, pos, r);
      pos < |t.data| && s.Ok? && s.value.row == rows[0] && Yields(t, s.value.next, s.value.registers, rows[1..], next, r')
  }

  lemma {:induction false} YieldsIterated(t: Table, pos: nat, r: Row, rows: seq<Row>, next: nat, r': Row)
    requires Yields(t, pos, r, rows, next, r')
    ensures Iterated(t, pos, r) == Prepended(rows, Iterated(t, next, r'))
    decreases |rows|
  {
    if rows == [] {
      IteratedStep(t, pos, r, []);
    } else {
      var s := NextRow(t, pos, r).value;
      YieldsIterated(t, s.next, s.registers, rows[1..], next, r');
      IteratedStep(t, pos, r, []);
      PrependedTwice([s.row], rows[1..], Iterated(t, next, r'));
      assert [s.row] + rows[1..] == rows;
      assert [] + [s.row] == [s.row];
    }
  }

  lemma PrependedTwice(a: seq<Row>, b: seq<Row>, rest: Result<seq<Row>>)
    ensures Prepended(a, Prepended(b, rest)) == Prepended(a + b, rest)
  {
    if rest.Ok? {
      assert a + (b + rest.value) == a + b + rest.value;
    }
  }

  lemma YieldsCons(t: Table, pos: nat, r: Row, s: Step, rows: seq<Row>, next: nat, r': Row)
    requires pos < |t.data| && NextRow(t, pos, r) == Ok(s) && Yields(t, s.next, s.registers, rows, next, r')
    ensures Yields(t, pos, r, [s.row] + rows, next, r')
  {
    assert ([s.row] + rows)[1..] == rows;
  }

  /** The sequence lies in the data row by row from `pos` on, up to `next`. */
  ghost predicate LaidOut(t: Table, pos: nat, from: Position, rows: seq<Position>, end: u64, next: nat)
    requires HasSpecials(t) && Encodable(t, from, rows)
    decreases rows
  {
    if rows == [] then At(t.data, pos, SetAddress(end) + [0, 1, 1]) && next == pos + 14
    else RowLaidOut(t, pos, from, rows[0]) && LaidOut(t, pos + RowLength(t, from, rows[0]), rows[0], rows[1..], end, next)
  }

  ghost predicate RowLaidOut(t: Table, pos: nat, from: Position, to: Position)
    requires HasSpecials(t) && InReach(t, from, to)
  {
    At(t.data, pos, EncodeRow(t, from, to))
  }

  function RowLength(t: Table, from: Position, to: Position): nat
    requires HasSpecials(t) && InReach(t, from, to)
  {
    |EncodeRow(t, from, to)|
  }

  lemma {:induction false} LayOut(t: Table, pos: nat, from: Position, rows: seq<Position>, end: u64)
    requires HasSpecials(t) && Encodable(t, from, rows)
    requires At(t.data, pos, EncodeRows(t, from, rows, end))
    ensures LaidOut(t, pos, from, rows, end, pos + |EncodeRows(t, from, rows, end)|)
    decreases rows
  {
    if rows != [] {
      RowsSplit(t, pos, from, rows, end);
      LayOut(t, pos + RowLength(t, from, rows[0]), rows[0], rows[1..], end);
    }
  }

  lemma RowsSplit(t: Table, pos: nat, from: Position, rows: seq<Position>, end: u64)
    requires HasSpecials(t) && Encodable(t, from, rows) && rows != []
    requires At(t.data, pos, EncodeRows(t, from, rows, end))
    ensures var length, tail := RowLength(t, from, rows[0]), EncodeRows(t, rows[0], rows[1..], end);
            && RowLaidOut(t, pos, from, rows[0]) && At(t.data, pos + length, tail)
            && |EncodeRows(t, from, rows, end)| == length + |tail|
  {
    AtSplit(t.data, pos, EncodeRow(t, from, rows[0]), EncodeRows(t, rows[0], rows[1..], end));
  }

  lemma {:induction false} SequenceAt(t: Table, pos: nat, from: Position, rows: seq<Position>, end: u64, next: nat)
    requires HasSpecials(t) && Encodable(t, from, rows) && LaidOut(t, pos, from, rows, end, next)
    ensures Yields(t, pos, RowFor(t, from), Expected(t, from, rows, end), next, Initial(t))
    decreases rows
  {
    if rows == [] {
      EndYields(t, pos, from, end);
    } else {
      SequenceAt(t, pos + RowLength(t, from, rows[0]), rows[0], rows[1..], end, next);
      RowYields(t, pos, from, rows[0], Expected(t, rows[0], rows[1..], end), next);
    }
  }

  lemma EndYields(t: Table, pos: nat, from: Position, end: u64)
    requires At(t.data, pos, SetAddress(end) + [0, 1, 1])
    ensures Yields(t, pos, RowFor(t, from), [EndRow(t, from, end)], pos + 14, Initial(t))
  {
    EndAt(t, pos, from, end);
    YieldsCons(t, pos, RowFor(t, from), Step(EndRow(t, from, end), Initial(t), pos + 14), [], pos + 14, Initial(t));
    assert [EndRow(t, from, end)] + [] == [EndRow(t, from, end)];
  }

  lemma RowYields(t: Table, pos: nat, from: Position, to: Position, rows: seq<Row>, next: nat)
    requires HasSpecials(t) && InReach(t, from, to) && RowLaidOut(t, pos, from, to)
    requires Yields(t, pos + RowLength(t, from, to), RowFor(t, to), rows, next, Initial(t))
    ensures Yields(t, pos, RowFor(t, from), [RowFor(t, to)] + rows, next, Initial(t))
  {
    RowAt(t, pos, from, to);
    YieldsCons(t, pos, RowFor(t, from), Step(RowFor(t, to), RowFor(t, to), pos + |EncodeRow(t, from, to)|), rows, next, Initial(t));
  }

  /** Wherever the bytes of a sequence lie, these rows come from there first. */
  ghost predicate ReadsSequences(t: Table, iterate: nat -> Result<seq<Row>>)
    requires HasSpecials(t)
  {
    forall s: Sequence, p: nat :: Encodable(t, START, s.rows) && At(t.data, p, EncodeRows(t, START, s.rows, s.end)) ==>
      iterate(p) == Prepended(Expected(t, START, s.rows, s.end), iterate(p + |EncodeRows(t, START, s.rows, s.end)|))
  }

  lemma RowsYield(t: Table, pos: nat, from: Position, rows: seq<Position>, end: u64, next: nat)
    requires HasSpecials(t) && Encodable(t, from, rows) && At(t.data, pos, EncodeRows(t, from, rows, end))
    requires next == pos + |EncodeRows(t, from, rows, end)|
    ensures Yields(t, pos, RowFor(t, from), Expected(t, from, rows, end), next, Initial(t))
  {
    LayOut(t, pos, from, rows, end);
    SequenceAt(t, pos, from, rows, end, next);
  }

  lemma RowsIterated(t: Table, pos: nat, from: Position, rows: seq<Position>, end: u64, next: nat)
    requires HasSpecials(t) && Encodable(t, from, rows) && At(t.data, pos, EncodeRows(t, from, rows, end))
    requires next == pos + |EncodeRows(t, from, rows, end)|
    ensures Iterated(t, pos, RowFor(t, from)) == Prepended(Expected(t, from, rows, end), Iterated(t, next, Initial(t)))
  {
    RowsYield(t, pos, from, rows, end, next);
    YieldsIterated(t, pos, RowFor(t, from), Expected(t, from, rows, end), next, Initial(t));
  }

  lemma {:induction false} SequencesAt(t: Table, iterate: nat -> Result<seq<Row>>, pos: nat, sequences: seq<Sequence>)
    requires AllEncodable(t, sequences) && ReadsSequences(t, iterate) && iterate(|t.data|) == Ok([])
    requires At(t.data, pos, EncodeAll(t, sequences)) && pos + |EncodeAll(t, sequences)| == |t.data|
    ensures iterate(pos) == Ok(ExpectedAll(t, sequences))
    decreases sequences
  {
    if sequences != [] {
      var s := sequences[0];
      var code := EncodeRows(t, START, s.rows, s.end);
      AtSplit(t.data, pos, code, EncodeAll(t, sequences[1..]));
      SequencesAt(t, iterate, pos + |code|, sequences[1..]);
    }
  }

  /** Any list of sequences whose line advances special opcodes can express, encoded with `set_address`,
      special opcodes and `end_sequence`, comes back from the iterator row for row. */
  lemma EncodedRowsComeBack(t: Table, sequences: seq<Sequence>)
    requires AllEncodable(t, sequences) && t.data == EncodeAll(t, sequences)
    ensures Iterated(t, 0, Initial(t)) == Ok(ExpectedAll(t, sequences))
  {
    assert t.data[0..|t.data|] == t.data;
    assert RowFor(t, START) == Initial(t);
    forall s: Sequence, p: nat | Encodable(t, START, s.rows) && At(t.data, p, EncodeRows(t, START, s.rows, s.end))
      ensures Iterated(t, p, Initial(t))
              == Prepended(Expected(t, START, s.rows, s.end), Iterated(t, p + |EncodeRows(t, START, s.rows, s.end)|, Initial(t)))
    {
      RowsIterated(t, p, START, s.rows, s.end, p + |EncodeRows(t, START, s.rows, s.end)|);
    }
    SequencesAt(t, (p: nat) => Iterated(t, p, Initial(t)), 0, sequences);
  }
}
