/** Pointers of `.eh_frame` and the search table of `.eh_frame_hdr` (section 10.6 of LSB Core 5.0). */
module EhFrame {
  import opened Words
  import opened Cursors

  /** What a relative pointer can be relative to. `origin` is the file offset of the data's first byte. */
  datatype Bases = Bases(origin: u64, text: u64, data: u64, function_: u64)

  function SignedInt(v: nat, n: nat): int {
    if 2 * v < Pow256(n) then v else v - Pow256(n)
  }

  /** The number a pointer encoding's low four bits select, before its base is added. */
  function RawPointerAt(data: seq<byte>, pos: nat, encoding: byte): (r: Result<Read<int>>)
    ensures r.Ok? ==> pos < r.value.next <= |data|
  {
    match encoding % 16
    case 0 | 4 => IntAt(data, pos, 8)
    case 1 => UlebAt(data, pos)
    case 2 => IntAt(data, pos, 2)
    case 3 => IntAt(data, pos, 4)
    case 9 => SlebAt(data, pos)
    case 10 => SignedAt(data, pos, 2)
    case 11 => SignedAt(data, pos, 4)
    case 12 => SignedAt(data, pos, 8)
    case _ => Err(InvalidEncoding)
  }

  function SignedAt(data: seq<byte>, pos: nat, n: nat): (r: Result<Read<int>>)
    ensures r.Ok? ==> r.value.next == pos + n <= |data|
  {
    var v :- IntAt(data, pos, n);
    Ok(Read(SignedInt(v.value, n), v.next))
  }

  function BaseOf(encoding: byte, pos: nat, bases: Bases): Result<int> {
    match encoding % 128 / 16
    case 0 => Ok(0)
    case 1 => Ok(bases.origin + pos)
    case 2 => Ok(bases.text)
    case 3 => Ok(bases.data)
    case 4 => Ok(bases.function_)
    case _ => Err(InvalidEncoding)
  }

  function PointerAt(data: seq<byte>, pos: nat, encoding: byte, bases: Bases): (r: Result<Read<u64>>)
    ensures r.Ok? ==> pos < r.value.next <= |data|
  {
    var base :- BaseOf(encoding, pos, bases);
    var raw :- RawPointerAt(data, pos, encoding);
    Ok(Read(Wrap64(base + raw.value), raw.next))
  }

  method ParsePointer(cur: Cursor, encoding: byte, bases: Bases) returns (r: Result<u64>)
    modifies cur`pos
    ensures Reads(PointerAt(cur.data, old(cur.pos), encoding, bases), r, cur.pos)
  {
    var base :- BaseOf(encoding, cur.pos, bases);
    var raw: int;
    match encoding % 16 {
      case 0 | 4 => raw :- cur.FixedInt(8);
      case 1 => raw :- cur.Uleb128();
      case 2 => raw :- cur.FixedInt(2);
      case 3 => raw :- cur.FixedInt(4);
      case 9 => raw :- cur.Sleb128();
      case 10 => raw :- cur.FixedInt(2); raw := SignedInt(raw, 2);
      case 11 => raw :- cur.FixedInt(4); raw := SignedInt(raw, 4);
      case 12 => raw :- cur.FixedInt(8); raw := SignedInt(raw, 8);
      case _ => return Err(InvalidEncoding);
    }
    r := Ok(Wrap64(base + raw));
  }

  // ----- The search table -----

  datatype Header = Header(table: seq<byte>, count: nat, encoding: byte, bases: Bases)

  function EncodingSize(encoding: byte): Result<nat> {
    match encoding % 8
    case 0 | 4 => Ok(8)
    case 2 => Ok(2)
    case 3 => Ok(4)
    case _ => Err(InvalidEncoding)
  }

  /** A row holds two pointers, the address of a function and its frame description. */
  function RowSize(h: Header): nat
    requires EncodingSize(h.encoding).Ok?
  {
    2 * EncodingSize(h.encoding).value
  }

  function AddressAt(h: Header, row: nat): Result<Read<u64>>
    requires EncodingSize(h.encoding).Ok?
  {
    PointerAt(h.table, row * RowSize(h), h.encoding, h.bases)
  }

  function FrameAt(h: Header, row: nat): Result<u64>
    requires EncodingSize(h.encoding).Ok?
  {
    var p :- PointerAt(h.table, row * RowSize(h) + EncodingSize(h.encoding).value, h.encoding, h.bases);
    Ok(p.value)
  }

  /** The function addresses of the table's first rows are these. */
  ghost predicate HoldsRows(h: Header, addresses: seq<u64>)
    requires EncodingSize(h.encoding).Ok?
  {
    addresses == []
    || var last := |addresses| - 1;
       && HoldsRows(h, addresses[..last])
       && AddressAt(h, last).Ok? && AddressAt(h, last).value.value == addresses[last]
  }

  ghost predicate Holds(h: Header, addresses: seq<u64>) {
    EncodingSize(h.encoding).Ok? && h.count == |addresses| && HoldsRows(h, addresses)
  }

  lemma {:induction false} HoldsRow(h: Header, addresses: seq<u64>, i: nat)
    requires EncodingSize(h.encoding).Ok? && HoldsRows(h, addresses) && i < |addresses|
    ensures AddressAt(h, i).Ok? && AddressAt(h, i).value.value == addresses[i]
  {
    var last := |addresses| - 1;
    if i < last {
      HoldsRow(h, addresses[..last], i);
    }
  }

  ghost predicate Sorted(addresses: seq<u64>) {
    forall i, j :: 0 <= i < j < |addresses| ==> addresses[i] <= addresses[j]
  }

  /** Row `i` covers `pc`: no row at or below `pc` starts later. */
  ghost predicate Covering(addresses: seq<u64>, i: nat, pc: u64) {
    i < |addresses| && addresses[i] <= pc
    && forall j :: 0 <= j < |addresses| && addresses[j] <= pc ==> addresses[j] <= addresses[i]
  }

  method ReadAddress(h: Header, row: nat, ghost addresses: seq<u64>) returns (address: u64)
    requires Holds(h, addresses) && row < h.count
    ensures address == addresses[row]
  {
    var cur := new Cursor(h.table, row * RowSize(h));
    HoldsRow(h, addresses, row);
    var entry := ParsePointer(cur, h.encoding, h.bases);
    address := entry.value;
  }

  /** The binary search. `high` is an unsigned word that must never step below zero. */
  method FindRow(h: Header, pc: u64, ghost addresses: seq<u64>) returns (r: Result<nat>)
    requires Holds(h, addresses) && Sorted(addresses) && addresses != []
    ensures pc < addresses[0] ==> r == Err(NotFound)
    ensures pc >= addresses[0] ==> r.Ok? && Covering(addresses, r.value, pc)
  {
    var low, high := 0, h.count - 1;
    while low <= high
      invariant 0 <= low <= high + 1 <= h.count && 0 <= high
      invariant forall i :: 0 <= i < low ==> addresses[i] < pc
      invariant forall i :: high < i < h.count ==> pc < addresses[i]
      decreases high + 1 - low
    {
      var mid := (low + high) / 2;
      var entry := ReadAddress(h, mid, addresses);
      if entry < pc {
        low := mid + 1;
      } else if entry > pc {
        if mid == 0 {
          return Err(NotFound);
        }
        high := mid - 1;
      } else {
        return Ok(mid);
      }
    }
    r := Ok(high);
  }

  /** `eh_hdr::operator[]`: the frame description of the covering row. */
  method Lookup(h: Header, pc: u64, ghost addresses: seq<u64>) returns (r: Result<u64>)
    requires EncodingSize(h.encoding).Ok? ==> Holds(h, addresses) && Sorted(addresses) && addresses != []
    ensures EncodingSize(h.encoding).Err? ==> r == Err(InvalidEncoding)
    ensures EncodingSize(h.encoding).Ok? ==>
              if pc < addresses[0] then r == Err(NotFound)
              else exists i :: Covering(addresses, i, pc) && r == FrameAt(h, i)
  {
    var size :- EncodingSize(h.encoding);
    var row :- FindRow(h, pc, addresses);
    var cur := new Cursor(h.table, row * RowSize(h) + size);
    r := ParsePointer(cur, h.encoding, h.bases);
    assert r == FrameAt(h, row);
  }

  // ----- The linear scan it replaces -----

  /** The last row that starts at or below `pc`. */
  ghost function Scan(addresses: seq<u64>, pc: u64): Option<nat> {
    if addresses == [] then None
    else if addresses[|addresses| - 1] <= pc then Some(|addresses| - 1)
    else Scan(addresses[..|addresses| - 1], pc)
  }

  /** A covering row starts where the row found by a scan from the end starts, and it is that row when
      no two rows start at one address. */
  lemma {:induction false} CoveringIsScan(addresses: seq<u64>, i: nat, pc: u64)
    requires Sorted(addresses) && Covering(addresses, i, pc)
    ensures Scan(addresses, pc).Some? && i <= Scan(addresses, pc).value < |addresses|
    ensures addresses[Scan(addresses, pc).value] == addresses[i]
    decreases |addresses|
  {
    var n := |addresses|;
    if addresses[n - 1] > pc {
      CoveringIsScan(addresses[..n - 1], i, pc);
    }
  }

  /** The scan finds nothing exactly when `pc` precedes all rows. */
  lemma {:induction false} ScanMisses(addresses: seq<u64>, pc: u64)
    requires Sorted(addresses)
    ensures Scan(addresses, pc) == None <==> addresses == [] || pc < addresses[0]
  {
    var n := |addresses|;
    if n > 1 && addresses[n - 1] > pc {
      ScanMisses(addresses[..n - 1], pc);
    }
  }

  // ----- A table as it is written -----

  function PointerWidth(encoding: byte): nat {
    if encoding % 16 in {2, 10} then 2 else if encoding % 16 in {3, 11} then 4 else 8
  }

  /** The bytes of a pointer of fixed size: what is left of the address when the base of the encoding is taken off, in
      2, 4 or 8 bytes, or the whole address. */
  predicate IsPointer(encoding: byte, pos: nat, bases: Bases, bs: seq<byte>, address: u64) {
    && |bs| == PointerWidth(encoding)
    && encoding % 16 in {0, 2, 3, 4, 10, 11, 12} && encoding / 16 % 8 < 5
    && var base: int := match encoding / 16 % 8 case 0 => 0 case 1 => bases.origin + pos case 2 => bases.text case 3 => bases.data case _ => bases.function_;
       var number: int := if encoding % 16 >= 8 && 2 * LittleEndian(bs) >= Pow256(|bs|) then LittleEndian(bs) - Pow256(|bs|) else LittleEndian(bs);
       address == (base + number) % 0x1_0000_0000_0000_0000
  }

  lemma HighBits(encoding: byte)
    ensures encoding % 128 / 16 == encoding / 16 % 8
  {
  }

  lemma PointerIsRead(data: seq<byte>, pos: nat, encoding: byte, bases: Bases, bs: seq<byte>, address: u64)
    requires At(data, pos, bs) && IsPointer(encoding, pos, bases, bs, address)
    ensures PointerAt(data, pos, encoding, bases) == Ok(Read(address, pos + |bs|))
  {
    HighBits(encoding);
  }

  /** One row of the table: the bytes of the pointer to a function, and behind them those to its frame. */
  datatype Row = Row(address: u64, frame: u64, addressBytes: seq<byte>, frameBytes: seq<byte>)

  predicate IsRow(h: Header, i: nat, r: Row) {
    var width := PointerWidth(h.encoding);
    var pos := i * (2 * width);
    && At(h.table, pos, r.addressBytes) && IsPointer(h.encoding, pos, h.bases, r.addressBytes, r.address)
    && At(h.table, pos + width, r.frameBytes) && IsPointer(h.encoding, pos + width, h.bases, r.frameBytes, r.frame)
  }

  lemma LowBits(encoding: byte)
    requires encoding % 16 in {0, 2, 3, 4, 10, 11, 12}
    ensures EncodingSize(encoding) == Ok(PointerWidth(encoding))
  {
    assert encoding % 8 == encoding % 16 % 8;
  }

  lemma RowIsRead(h: Header, i: nat, r: Row)
    requires IsRow(h, i, r)
    ensures EncodingSize(h.encoding).Ok? && AddressAt(h, i).Ok? && AddressAt(h, i).value.value == r.address && FrameAt(h, i) == Ok(r.frame)
  {
    var size := PointerWidth(h.encoding);
    LowBits(h.encoding);
    PointerIsRead(h.table, i * (2 * size), h.encoding, h.bases, r.addressBytes, r.address);
    PointerIsRead(h.table, i * (2 * size) + size, h.encoding, h.bases, r.frameBytes, r.frame);
  }

  lemma {:induction false} RowsAreHeld(h: Header, addresses: seq<u64>)
    requires EncodingSize(h.encoding).Ok?
    requires forall i :: 0 <= i < |addresses| ==> AddressAt(h, i).Ok? && AddressAt(h, i).value.value == addresses[i]
    ensures HoldsRows(h, addresses)
    decreases |addresses|
  {
    if addresses != [] {
      RowsAreHeld(h, addresses[..|addresses| - 1]);
    }
  }

  /** A table written row by row holds the addresses of its rows, and the frame of each is at its row. */
  lemma TableIsRead(h: Header, rows: seq<Row>, addresses: seq<u64>)
    requires rows != [] && |addresses| == |rows| == h.count
    requires forall i :: 0 <= i < |rows| ==> IsRow(h, i, rows[i]) && rows[i].address == addresses[i]
    ensures Holds(h, addresses)
    ensures forall i :: 0 <= i < |rows| ==> FrameAt(h, i) == Ok(rows[i].frame)
  {
    RowIsRead(h, 0, rows[0]);
    forall i | 0 <= i < |rows|
      ensures AddressAt(h, i).Ok? && AddressAt(h, i).value.value == addresses[i] && FrameAt(h, i) == Ok(rows[i].frame)
    {
      RowIsRead(h, i, rows[i]);
    }
    RowsAreHeld(h, addresses);
  }
}
