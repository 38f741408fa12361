/** The line-number program (section 6.2 of DWARF 4) as the debugger runs it: a state machine behind a
    forward iterator. */
module LineTables {
  import opened Words
  import opened Cursors

  datatype Row = Row(address: u64, fileIndex: u64, line: u64, column: u64, isStmt: bool, basicBlock: bool,
                     endSequence: bool, prologueEnd: bool, epilogueBegin: bool, discriminator: u64)

  type Range = b: int | 1 <= b < 0x100 witness 1

  /** A line table header and its program. */
  datatype Table = Table(data: seq<byte>, defaultIsStmt: bool, lineBase: int, lineRange: Range, opcodeBase: byte)

  function Initial(t: Table): Row {
    Row(0, 1, 1, 0, t.defaultIsStmt, false, false, false, false, 0)
  }

  /** The registers after a row has been emitted by `copy` or a special opcode. */
  function Reset(r: Row): Row {
    r.(basicBlock := false, prologueEnd := false, epilogueBegin := false, discriminator := 0)
  }

  // ----- Division by the line range, counted out -----

  function Quotient(a: nat, range: Range): nat {
    if a < range then 0 else 1 + Quotient(a - range, range)
  }

  function Remainder(a: nat, range: Range): nat {
    if a < range then a else Remainder(a - range, range)
  }

  /** They are the source's `/` and `%`. */
  lemma {:induction false} QuotientIsDivision(a: nat, range: Range)
    ensures Quotient(a, range) == a / range && Remainder(a, range) == a % range
  {
    if a >= range {
      QuotientIsDivision(a - range, range);
      OneMore(a - range, range);
    }
  }

  lemma OneMore(n: nat, range: Range)
    ensures (n + range) / range == n / range + 1 && (n + range) % range == n % range
  {
    var q, m := n / range, n % range;
    assert n == q * range + m && (q + 1) * range == q * range + range;
    UniqueDigits(n + range, range, q + 1, m);
  }

  lemma UniqueDigits(n: nat, range: Range, q: nat, m: nat)
    requires n == q * range + m && m < range
    ensures n / range == q && n % range == m
  {
    NotBelow(n / range, n % range, q, m, range);
    NotBelow(q, m, n / range, n % range, range);
  }

  lemma NotBelow(q: nat, m: nat, q': nat, m': nat, range: Range)
    requires q * range + m == q' * range + m' && m' < range
    ensures q <= q'
  {
    if q > q' {
      assert (q' + 1) * range == q' * range + range;
      Product(q' + 1, q, range);
      assert false;
    }
  }

  lemma Product(x: nat, y: nat, range: nat)
    ensures x <= y ==> x * range <= y * range
  {
  }

  // ----- One instruction -----

  datatype Executed = Executed(registers: Row, emitted: Option<Row>, next: nat)

  function InstructionAt(t: Table, pos: nat, r: Row): (e: Result<Executed>)
    ensures e.Ok? ==> pos < e.value.next
  {
    if pos >= |t.data| then Err(OutOfData)
    else if t.data[pos] == 0 then ExtendedAt(t, pos + 1, r)
    else if t.data[pos] < t.opcodeBase then StandardAt(t, pos + 1, t.data[pos], r)
    else
      var now := Special(t, t.data[pos] - t.opcodeBase, r);
      Ok(Executed(Reset(now), Some(now), pos + 1))
  }

  function Special(t: Table, adjusted: nat, r: Row): Row {
    r.(address := Wrap64(r.address + Quotient(adjusted, t.lineRange)),
       line := Wrap64(r.line + t.lineBase + Remainder(adjusted, t.lineRange)))
  }

  /** `advance_pc` reads a signed operand, `set_file` sets the column, `advance_line` and `set_column`
      are rejected and `set_isa` leaves its operand in place. */
  function StandardAt(t: Table, pos: nat, opcode: byte, r: Row): (e: Result<Executed>)
    ensures e.Ok? ==> pos <= e.value.next
  {
    match opcode
    case 1 => Ok(Executed(Reset(r), Some(r), pos))
    case 2 =>
      var d :- SlebAt(t.data, pos);
      Ok(Executed(r.(address := Wrap64(r.address + d.value)), None, d.next))
    case 4 =>
      var c :- UlebAt(t.data, pos);
      Ok(Executed(r.(column := c.value), None, c.next))
    case 6 => Ok(Executed(r.(isStmt := !r.isStmt), None, pos))
    case 7 => Ok(Executed(r.(basicBlock := true), None, pos))
    case 8 => Ok(Executed(r.(address := Wrap64(r.address + Quotient(255 - t.opcodeBase, t.lineRange))), None, pos))
    case 9 =>
      var d :- IntAt(t.data, pos, 2);
      Ok(Executed(r.(address := Wrap64(r.address + d.value)), None, d.next))
    case 10 => Ok(Executed(r.(prologueEnd := true), None, pos))
    case 11 => Ok(Executed(r.(epilogueBegin := true), None, pos))
    case 12 => Ok(Executed(r, None, pos))
    case _ => Err(UnknownOpcode)
  }

  function ExtendedAt(t: Table, pos: nat, r: Row): (e: Result<Executed>)
    ensures e.Ok? ==> pos <= e.value.next
  {
    var length :- UlebAt(t.data, pos);
    var op :- IntAt(t.data, length.next, 1);
    match op.value
    case 1 => Ok(Executed(Initial(t), Some(r.(endSequence := true)), op.next))
    case 2 =>
      var a :- IntAt(t.data, op.next, 8);
      Ok(Executed(r.(address := Wrap64(a.value)), None, a.next))
    case 3 =>
      var dir :- UlebAt(t.data, StringEnd(t.data, op.next));
      var time :- UlebAt(t.data, dir.next);
      var size :- UlebAt(t.data, time.next);
      Ok(Executed(r, None, size.next))
    case 4 =>
      var d :- UlebAt(t.data, op.next);
      Ok(Executed(r.(discriminator := d.value), None, d.next))
    case _ => Err(UnknownOpcode)
  }

  // ----- The iterator -----

  datatype Step = Step(row: Row, registers: Row, next: nat)

  /** Instructions run until one emits a row. */
  function NextRow(t: Table, pos: nat, r: Row): (s: Result<Step>)
    ensures s.Ok? ==> pos < s.value.next
    decreases |t.data| - pos
  {
    var e :- InstructionAt(t, pos, r);
    match e.emitted
    case Some(row) => Ok(Step(row, e.registers, e.next))
    case None => NextRow(t, e.next, e.registers)
  }

  class Iterator {
    const table: Table
    var pos: Option<nat>
    var registers: Row
    var current: Row

    /** The iterator before the `++` that the source's constructor ends with. */
    constructor (table: Table)
      ensures this.table == table && pos == Some(0) && registers == Initial(table)
    {
      this.table := table;
      pos, registers, current := Some(0), Initial(table), Initial(table);
    }

    method Standard(cur: Cursor, opcode: byte) returns (r: Result<bool>)
      requires cur.data == table.data
      modifies this`registers, this`current, cur`pos
      ensures Ran(StandardAt(table, old(cur.pos), opcode, old(registers)), r, cur.pos)
    {
      var emitted := false;
      match opcode {
        case 1 =>
          current := registers;
          registers := Reset(registers);
          emitted := true;
        case 2 =>
          var d :- cur.Sleb128();
          registers := registers.(address := Wrap64(registers.address + d));
        case 4 =>
          var c :- cur.Uleb128();
          registers := registers.(column := c);
        case 6 =>
          registers := registers.(isStmt := !registers.isStmt);
        case 7 =>
          registers := registers.(basicBlock := true);
        case 8 =>
          registers := registers.(address := Wrap64(registers.address + Quotient(255 - table.opcodeBase, table.lineRange)));
        case 9 =>
          var d :- cur.FixedInt(2);
          registers := registers.(address := Wrap64(registers.address + d));
        case 10 =>
          registers := registers.(prologueEnd := true);
        case 11 =>
          registers := registers.(epilogueBegin := true);
        case 12 =>
        case _ =>
          return Err(UnknownOpcode);
      }
      r := Ok(emitted);
    }

    method Extended(cur: Cursor) returns (r: Result<bool>)
      requires cur.data == table.data
      modifies this`registers, this`current, cur`pos
      ensures Ran(ExtendedAt(table, old(cur.pos), old(registers)), r, cur.pos)
    {
      var length :- cur.Uleb128();
      var op :- cur.FixedInt(1);
      match op {
        case 1 =>
          current := registers.(endSequence := true);
          registers := Initial(table);
          return Ok(true);
        case 2 =>
          var a :- cur.FixedInt(8);
          registers := registers.(address := Wrap64(a));
        case 3 =>
          cur.SkipString();
          var dir :- cur.Uleb128();
          var time :- cur.Uleb128();
          var size :- cur.Uleb128();
        case 4 =>
          var d :- cur.Uleb128();
          registers := registers.(discriminator := d);
        case _ =>
          return Err(UnknownOpcode);
      }
      r := Ok(false);
    }

    /** The outcome of one instruction: whether it emitted, and then the current row. */
    ghost predicate Ran(e: Result<Executed>, r: Result<bool>, at: nat)
      reads this
    {
      match e
      case Err(error) => r == Err(error)
      case Ok(done) =>
        && r == Ok(done.emitted.Some?) && registers == done.registers && at == done.next
        && (done.emitted.Some? ==> current == done.emitted.value)
    }

    /** `execute_instruction`. */
    method ExecuteInstruction() returns (r: Result<bool>)
      requires pos.Some?
      modifies this
      ensures pos.Some? && Ran(InstructionAt(table, old(pos.value), old(registers)), r, pos.value)
    {
      var cur := new Cursor(table.data, pos.value);
      var opcode :- cur.U8();
      if 0 < opcode < table.opcodeBase {
        r := Standard(cur, opcode);
      } else if opcode == 0 {
        r := Extended(cur);
      } else {
        registers := Special(table, opcode - table.opcodeBase, registers);
        current := registers;
        registers := Reset(registers);
        r := Ok(true);
      }
      pos := Some(cur.pos);
    }

    /** `operator ++`: no row at the end of the data, the next row otherwise. */
    method Advance() returns (r: Result<()>)
      requires pos.Some?
      modifies this
      ensures if old(pos.value) == |table.data| then r == Ok(()) && pos == None
              else match NextRow(table, old(pos.value), old(registers))
                   case Err(e) => r == Err(e)
                   case Ok(s) => r == Ok(()) && pos == Some(s.next) && registers == s.registers && current == s.row
    {
      if pos.value == |table.data| {
        pos := None;
        return Ok(());
      }
      var emitted := false;
      ghost var start, first := pos.value, registers;
      while !emitted
        invariant pos.Some?
        invariant !emitted ==> NextRow(table, start, first) == NextRow(table, pos.value, registers)
        invariant emitted ==> NextRow(table, start, first) == Ok(Step(current, registers, pos.value))
        decreases !emitted, |table.data| - pos.value
      {
        emitted :- ExecuteInstruction();
      }
      r := Ok(());
    }
  }

  /** The rows from `pos` on, as repeated `++` yields them. */
  function Iterated(t: Table, pos: nat, r: Row): Result<seq<Row>>
    decreases |t.data| - pos
  {
    if pos == |t.data| then Ok([])
    else
      var s :- NextRow(t, pos, r);
      var rest :- Iterated(t, s.next, s.registers);
      Ok([s.row] + rest)
  }

  /** The loop from `begin()` to `end()`. */
  method Rows(t: Table) returns (r: Result<seq<Row>>)
    ensures r == Iterated(t, 0, Initial(t))
  {
    var rows: seq<Row> := [];
    ghost var all := Iterated(t, 0, Initial(t));
    var it := new Iterator(t);
    IteratedStep(t, 0, Initial(t), []);
    var _ :- it.Advance();
    while it.pos.Some?
      invariant it.table == t && fresh(it)
      invariant all == Whole(t, rows, it.pos, it.current, it.registers)
      decreases it.pos.Some?, if it.pos.Some? then |t.data| - it.pos.value else 0
    {
      rows := rows + [it.current];
      IteratedStep(t, it.pos.value, it.registers, rows);
      var _ :- it.Advance();
    }
    r := Ok(rows);
  }

  /** The rows collected, the current one and those still to come. */
  function Whole(t: Table, rows: seq<Row>, pos: Option<nat>, current: Row, registers: Row): Result<seq<Row>> {
    match pos
    case None => Ok(rows)
    case Some(p) => Prepended(rows + [current], Iterated(t, p, registers))
  }

  lemma IteratedStep(t: Table, pos: nat, r: Row, rows: seq<Row>)
    ensures Prepended(rows, Iterated(t, pos, r))
         == if pos == |t.data| then Ok(rows)
            else match NextRow(t, pos, r)
                 case Err(e) => Err(e)
                 case Ok(s) => Whole(t, rows, Some(s.next), s.row, s.registers)
    ensures Prepended([], Iterated(t, pos, r)) == Iterated(t, pos, r)
  {
    if pos == |t.data| {
      assert rows + [] == rows;
    } else if NextRow(t, pos, r).Ok? {
      var s := NextRow(t, pos, r).value;
      var rest := Iterated(t, s.next, s.registers);
      if rest.Ok? {
        assert rows + ([s.row] + rest.value) == rows + [s.row] + rest.value;
      }
    }
    if Iterated(t, pos, r).Ok? {
      assert [] + Iterated(t, pos, r).value == Iterated(t, pos, r).value;
    }
  }

  function Prepended(rows: seq<Row>, rest: Result<seq<Row>>): Result<seq<Row>> {
    match rest
    case Ok(more) => Ok(rows + more)
    case Err(e) => Err(e)
  }

  // ----- The batch interpreter -----

  /** Every instruction to the end of the data, with the rows emitted on the way. */
  function Batch(t: Table, pos: nat, r: Row): Result<seq<Row>>
    decreases |t.data| - pos
  {
    if pos == |t.data| then Ok([])
    else
      var e :- InstructionAt(t, pos, r);
      var rest :- Batch(t, e.next, e.registers);
      Ok(if e.emitted.Some? then [e.emitted.value] + rest else rest)
  }

  /** The program's last instruction emits a row, as the one that completes a sequence does. */
  predicate EndsOnRow(t: Table, pos: nat, r: Row)
    decreases |t.data| - pos
  {
    pos == |t.data|
    || (InstructionAt(t, pos, r).Ok?
        && var e := InstructionAt(t, pos, r).value;
           if e.next == |t.data| then e.emitted.Some? else EndsOnRow(t, e.next, e.registers))
  }

  /** Repeated `++` over a program that runs yields exactly the rows of the batch interpreter and ends at
      the end of the data if and only if the last instruction emits a row; otherwise it runs off the
      data. */
  lemma {:induction false} IteratedIsBatch(t: Table, pos: nat, r: Row)
    requires Batch(t, pos, r).Ok?
    ensures EndsOnRow(t, pos, r) ==> Iterated(t, pos, r) == Batch(t, pos, r)
    ensures !EndsOnRow(t, pos, r) ==> Iterated(t, pos, r) == Err(OutOfData)
    decreases |t.data| - pos
  {
    if pos != |t.data| {
      var e := InstructionAt(t, pos, r).value;
      IteratedIsBatch(t, e.next, e.registers);
      if e.emitted.None? {
        if e.next == |t.data| {
          assert NextRow(t, e.next, e.registers) == Err(OutOfData);
        } else {
          assert NextRow(t, pos, r) == NextRow(t, e.next, e.registers);
        }
      }
    }
  }

  /** Since `set_file` sets the column, every row names file 1. */
  lemma {:induction false} EveryRowIsInFileOne(t: Table, pos: nat, r: Row)
    requires r.fileIndex == 1 && Batch(t, pos, r).Ok?
    ensures forall k :: 0 <= k < |Batch(t, pos, r).value| ==> Batch(t, pos, r).value[k].fileIndex == 1
    decreases |t.data| - pos
  {
    if pos != |t.data| {
      var e := InstructionAt(t, pos, r).value;
      FileStaysOne(t, pos, r);
      EveryRowIsInFileOne(t, e.next, e.registers);
    }
  }

  /** The outcome leaves the registers and the row it emits in file 1. */
  predicate InFileOne(e: Result<Executed>) {
    e.Ok? ==> e.value.registers.fileIndex == 1 && (e.value.emitted.Some? ==> e.value.emitted.value.fileIndex == 1)
  }

  lemma StandardInFileOne(t: Table, pos: nat, opcode: byte, r: Row)
    requires r.fileIndex == 1
    ensures InFileOne(StandardAt(t, pos, opcode, r))
  {
  }

  lemma ExtendedInFileOne(t: Table, pos: nat, r: Row)
    requires r.fileIndex == 1
    ensures InFileOne(ExtendedAt(t, pos, r))
  {
  }

  lemma FileStaysOne(t: Table, pos: nat, r: Row)
    requires r.fileIndex == 1
    ensures InFileOne(InstructionAt(t, pos, r))
  {
    if pos < |t.data| {
      StandardInFileOne(t, pos + 1, t.data[pos], r);
      ExtendedInFileOne(t, pos + 1, r);
    }
  }

  // ----- The row for an address -----

  /** Row `i` does not end a sequence and the address lies between it and the next row. */
  predicate Matches(rows: seq<Row>, i: nat, address: u64) {
    i + 1 < |rows| && rows[i].address <= address < rows[i + 1].address && !rows[i].endSequence
  }

  /** The first row that matches. */
  function Entry(rows: seq<Row>, address: u64): Option<Row> {
    if |rows| < 2 then None
    else
      var n := |rows| - 1;
      var earlier := Entry(rows[..n], address);
      if earlier.Some? then earlier
      else if Matches(rows, n - 1, address) then Some(rows[n - 1])
      else None
  }

  /** The rows up to the end of the data, or up to where an instruction fails. */
  function RowsBefore(t: Table, pos: nat, r: Row): seq<Row>
    decreases |t.data| - pos
  {
    if pos == |t.data| || NextRow(t, pos, r).Err? then []
    else
      var s := NextRow(t, pos, r).value;
      [s.row] + RowsBefore(t, s.next, s.registers)
  }

  /** They are all the rows of a program that does not fail. */
  lemma {:induction false} RowsBeforeIsIterated(t: Table, pos: nat, r: Row)
    requires Iterated(t, pos, r).Ok?
    ensures RowsBefore(t, pos, r) == Iterated(t, pos, r).value
    decreases |t.data| - pos
  {
    if pos != |t.data| {
      var s := NextRow(t, pos, r).value;
      RowsBeforeIsIterated(t, s.next, s.registers);
    }
  }

  /** The answer of the scan: the first match among the rows before any failure, and otherwise that failure, or
      nothing. */
  function Scanned(rows: seq<Row>, failure: Option<Error>, address: u64): Result<Option<Row>> {
    if Entry(rows, address).Some? then Ok(Entry(rows, address))
    else if failure.Some? then Err(failure.value)
    else Ok(None)
  }

  function FailureFrom(t: Table, pos: nat, r: Row): Option<Error> {
    match Iterated(t, pos, r)
    case Ok(_) => None
    case Err(e) => Some(e)
  }

  /** `get_entry_by_address`: the pairwise scan returns the first row that matches, if any, and fails only when
      the program does before that. */
  method EntryByAddress(t: Table, address: u64) returns (r: Result<Option<Row>>)
    ensures r == Scanned(RowsBefore(t, 0, Initial(t)), FailureFrom(t, 0, Initial(t)), address)
  {
    ghost var all, failure := RowsBefore(t, 0, Initial(t)), FailureFrom(t, 0, Initial(t));
    var it := new Iterator(t);
    ScanStart(t, address);
    var _ :- it.Advance();
    if it.pos.None? {
      return Ok(None);
    }
    var prev := it.current;
    ghost var seen, more := [prev], RowsBefore(t, it.pos.value, it.registers);
    ScanStep(t, it.pos.value, it.registers, seen, address);
    var _ :- it.Advance();
    while it.pos.Some?
      invariant it.table == t && fresh(it)
      invariant seen != [] && seen[|seen| - 1] == prev && Entry(seen, address) == None
      invariant it.pos.None? ==> all == seen && failure == None
      invariant it.pos.Some? ==> all == seen + [it.current] + RowsBefore(t, it.pos.value, it.registers)
                                 && failure == FailureFrom(t, it.pos.value, it.registers)
      decreases it.pos.Some?, if it.pos.Some? then |t.data| - it.pos.value else 0
    {
      more := RowsBefore(t, it.pos.value, it.registers);
      EntryStep(seen, it.current, address, more);
      if prev.address <= address && it.current.address > address && !prev.endSequence {
        return Ok(Some(prev));
      }
      prev := it.current;
      seen := seen + [it.current];
      ScanStep(t, it.pos.value, it.registers, seen, address);
      var _ :- it.Advance();
    }
    r := Ok(None);
  }

  lemma ScanStart(t: Table, address: u64)
    ensures var all, failure := RowsBefore(t, 0, Initial(t)), FailureFrom(t, 0, Initial(t));
            if |t.data| == 0 then all == [] && failure == None
            else
              var next := NextRow(t, 0, Initial(t));
              && (next.Err? ==> all == [] && failure == Some(next.error))
              && (next.Ok? ==> all == [next.value.row] + RowsBefore(t, next.value.next, next.value.registers)
                               && failure == FailureFrom(t, next.value.next, next.value.registers))
  {
  }

  /** What the next `++` adds to the rows seen. */
  lemma ScanStep(t: Table, pos: nat, r: Row, seen: seq<Row>, address: u64)
    ensures var all, failure, next := seen + RowsBefore(t, pos, r), FailureFrom(t, pos, r), NextRow(t, pos, r);
            if pos == |t.data| then all == seen && failure == None
            else
              && (next.Err? ==> all == seen && failure == Some(next.error))
              && (next.Ok? ==> all == seen + [next.value.row] + RowsBefore(t, next.value.next, next.value.registers)
                               && failure == FailureFrom(t, next.value.next, next.value.registers))
  {
    if pos != |t.data| && NextRow(t, pos, r).Ok? {
      var s := NextRow(t, pos, r).value;
      var rest := RowsBefore(t, s.next, s.registers);
      assert seen + ([s.row] + rest) == seen + [s.row] + rest;
    }
  }

  /** One more row: it completes the first match, or there is still none. */
  lemma EntryStep(seen: seq<Row>, current: Row, address: u64, rest: seq<Row>)
    requires seen != [] && Entry(seen, address) == None
    ensures var prev := seen[|seen| - 1];
            if prev.address <= address < current.address && !prev.endSequence
            then Entry(seen + [current] + rest, address) == Some(prev)
            else Entry(seen + [current], address) == None
  {
    var more := seen + [current];
    assert more[..|seen|] == seen;
    if Entry(more, address).Some? {
      EntryExtends(more, rest, address);
    }
  }

  lemma {:induction false} EntryExtends(rows: seq<Row>, more: seq<Row>, address: u64)
    requires Entry(rows, address).Some?
    ensures Entry(rows + more, address) == Entry(rows, address)
    decreases |more|
  {
    if more == [] {
      assert rows + more == rows;
    } else {
      var n := |more| - 1;
      EntryExtends(rows, more[..n], address);
      assert (rows + more)[..|rows| + n] == rows + more[..n];
    }
  }

  /** What the entry is: nothing exactly when no row matches, and otherwise a row that matches. */
  lemma {:induction false} EntryExactly(rows: seq<Row>, address: u64)
    ensures Entry(rows, address) == None <==> forall i: nat :: !Matches(rows, i, address)
    ensures Entry(rows, address).Some? ==>
              exists i: nat :: Matches(rows, i, address) && rows[i] == Entry(rows, address).value
                               && forall j: nat :: j < i ==> !Matches(rows, j, address)
  {
    if |rows| >= 2 {
      var n := |rows| - 1;
      var front := rows[..n];
      EntryExactly(front, address);
      assert forall j: nat :: j + 1 < n ==> Matches(rows, j, address) == Matches(front, j, address);
      if Entry(front, address).Some? {
        var i: nat :| Matches(front, i, address) && front[i] == Entry(front, address).value
                      && forall j: nat :: j < i ==> !Matches(front, j, address);
        assert Matches(rows, i, address);
        assert forall j: nat :: j < i ==> !Matches(rows, j, address);
      } else if Matches(rows, n - 1, address) {
        assert forall j: nat :: j < n - 1 ==> !Matches(rows, j, address);
      }
    }
  }

  /** The entry in so many words: the first row that ends no sequence, starts at or below the address, and is followed by
      a row above it. */
  lemma EntryIsFirst(rows: seq<Row>, address: u64, i: nat)
    requires i + 1 < |rows| && rows[i].address <= address && address < rows[i + 1].address && !rows[i].endSequence
    requires forall j :: 0 <= j < i ==> rows[j].endSequence || rows[j].address > address || rows[j + 1].address <= address
    ensures Entry(rows, address) == Some(rows[i])
  {
    EntryExactly(rows, address);
    assert Matches(rows, i, address);
  }
}
