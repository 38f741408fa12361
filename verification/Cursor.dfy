/** The byte cursor of the DWARF engine: fixed-size integers, LEB128 (section 7.6 of DWARF 4) and the
    skipping of attribute values by form (section 7.5.4 of DWARF 4). */
module Cursors {
  import opened Words

  // ----- What the reads mean, as functions of the data and the position -----

  function IntAt(data: seq<byte>, pos: nat, n: nat): Result<Read<nat>> {
    if pos + n <= |data| then Ok(Read(LittleEndian(data[pos..pos + n]), pos + n)) else Err(OutOfData)
  }

  function Pow2(n: nat): nat {
    if n == 0 then 1 else 2 * Pow2(n - 1)
  }

  /** The 64-bit word `x << shift`. */
  function ShiftLeft(x: nat, shift: nat): u64 {
    Wrap64(x * Pow2(shift))
  }

  function Pow128(n: nat): nat {
    if n == 0 then 1 else 0x80 * Pow128(n - 1)
  }

  /** The number formed by the low seven bits of each byte, least significant group first. */
  function Groups(bs: seq<byte>): nat {
    if bs == [] then 0 else bs[0] % 0x80 + 0x80 * Groups(bs[1..])
  }

  /** The end of the LEB128 number of which `count` bytes precede `pos`. An eleventh byte would be
      shifted by seventy bits, which C++ leaves undefined. */
  function LebEnd(data: seq<byte>, pos: nat, count: nat): (r: Result<nat>)
    ensures r.Ok? ==> pos < r.value <= |data| && r.value - pos + count <= 10
    decreases |data| - pos
  {
    if pos >= |data| then Err(OutOfData)
    else if count >= 10 then Err(ShiftTooWide)
    else if data[pos] < 0x80 then Ok(pos + 1)
    else LebEnd(data, pos + 1, count + 1)
  }

  function UlebAt(data: seq<byte>, pos: nat): (r: Result<Read<u64>>)
    ensures r.Ok? ==> pos < r.value.next <= |data|
  {
    var end :- LebEnd(data, pos, 0);
    Ok(Read(Wrap64(Groups(data[pos..end])), end))
  }

  /** Only a one-byte number is sign-extended: the guard compares the shift with the size of the
      result in bytes, eight, not in bits. */
  function SlebAt(data: seq<byte>, pos: nat): (r: Result<Read<int>>)
    ensures r.Ok? ==> pos < r.value.next <= |data|
  {
    var end :- LebEnd(data, pos, 0);
    var v := Wrap64(Groups(data[pos..end]));
    Ok(Read(if end - pos == 1 && v >= 0x40 then v - 0x80 else Signed64(v), end))
  }

  /** The position just after the zero byte that ends the string at `pos`. */
  function StringEnd(data: seq<byte>, pos: nat): (end: nat)
    ensures end > pos
    decreases |data| - pos
  {
    if pos < |data| && data[pos] != 0 then StringEnd(data, pos + 1) else pos + 1
  }

  // ----- Section 7.6 of DWARF 4: encodings and their meaning -----

  function UlebEncode(v: nat): (bs: seq<byte>)
    ensures bs != []
  {
    if v < 0x80 then [v] else [0x80 + v % 0x80] + UlebEncode(v / 0x80)
  }

  function SlebEncode(v: int): (bs: seq<byte>)
    ensures bs != []
    decreases if v < 0 then -v else v
  {
    if -0x40 <= v < 0x40 then [v % 0x80] else [0x80 + v % 0x80] + SlebEncode(v / 0x80)
  }

  /** One LEB128 number that a 64-bit reader can take: continuation bits on all bytes but the last. */
  predicate IsLeb(bs: seq<byte>) {
    && 0 < |bs| <= 10
    && bs[|bs| - 1] < 0x80
    && forall i :: 0 <= i < |bs| - 1 ==> bs[i] >= 0x80
  }

  /** The signed number that section 7.6 assigns to a LEB128 byte string. */
  function SlebMeaning(bs: seq<byte>): int
    requires bs != []
  {
    Groups(bs) - if bs[|bs| - 1] % 0x80 >= 0x40 then Pow128(|bs|) else 0
  }

  // ----- The cursor -----

  /** `r` and the new position are those of the read `spec`. */
  ghost predicate Reads<T>(spec: Result<Read<T>>, r: Result<T>, pos: nat) {
    match spec
    case Ok(Read(value, next)) => r == Ok(value) && pos == next
    case Err(e) => r == Err(e)
  }

  class Cursor {
    const data: seq<byte>
    var pos: nat

    constructor (data: seq<byte>, pos: nat)
      ensures this.data == data && this.pos == pos
    {
      this.data := data;
      this.pos := pos;
    }

    predicate Finished()
      reads this
    {
      pos >= |data|
    }

    method FixedInt(n: nat) returns (r: Result<nat>)
      modifies this`pos
      ensures Reads(IntAt(data, old(pos), n), r, pos)
    {
      if pos + n > |data| {
        return Err(OutOfData);
      }
      r := Ok(LittleEndian(data[pos..pos + n]));
      pos := pos + n;
    }

    method U8() returns (r: Result<byte>)
      modifies this`pos
      ensures if old(pos) < |data| then r == Ok(data[old(pos)]) && pos == old(pos) + 1 else r == Err(OutOfData)
    {
      if pos >= |data| {
        return Err(OutOfData);
      }
      r := Ok(data[pos]);
      pos := pos + 1;
    }

    /** The loop that both LEB128 readers run: the accumulated word and the shift. Since
        `res < 2^shift`, the source's bitwise or is an addition that never carries. */
    method LebLoop() returns (r: Result<u64>, shift: nat)
      modifies this`pos
      ensures match LebEnd(data, old(pos), 0)
              case Ok(end) =>
                && r == Ok(Wrap64(Groups(data[old(pos)..end]))) && pos == end && shift == 7 * (end - old(pos))
              case Err(e) => r == Err(e)
    {
      ghost var start := pos;
      var res: u64 := 0;
      shift := 0;
      assert start <= |data| ==> data[start..start] == [];
      while true
        invariant start <= pos && (pos <= |data| || pos == start) && pos - start <= 10
        invariant shift == 7 * (pos - start)
        invariant LebEnd(data, start, 0) == LebEnd(data, pos, pos - start)
        invariant pos <= |data| ==> res == Wrap64(Groups(data[start..pos]))
        decreases |data| - pos
      {
        var read := U8();
        if read.Err? {
          return Err(read.error), shift;
        }
        var b := read.value;
        if shift >= 64 {
          return Err(ShiftTooWide), shift;
        }
        ShiftedGroup(data[start..pos - 1], b);
        assert data[start..pos - 1] + [b] == data[start..pos];
        res := res + ShiftLeft(b % 0x80, shift);
        shift := shift + 7;
        if b < 0x80 {
          return Ok(res), shift;
        }
      }
    }

    method Uleb128() returns (r: Result<u64>)
      modifies this`pos
      ensures Reads(UlebAt(data, old(pos)), r, pos)
    {
      var shift;
      r, shift := LebLoop();
    }

    method Sleb128() returns (r: Result<int>)
      modifies this`pos
      ensures Reads(SlebAt(data, old(pos)), r, pos)
    {
      var word, shift := LebLoop();
      if word.Err? {
        return Err(word.error);
      }
      var res := word.value;
      var last := data[pos - 1];
      if shift < 8 && last >= 0x40 {
        assert data[old(pos)..pos] == [last];
        res := res + (TWO_64 - Pow2(shift));
      } else if shift < 8 {
        assert data[old(pos)..pos] == [last];
      }
      r := Ok(Signed64(res));
    }

    method SkipString()
      modifies this`pos
      ensures pos == StringEnd(data, old(pos))
    {
      while !Finished() && data[pos] != 0
        invariant StringEnd(data, old(pos)) == StringEnd(data, pos)
        decreases |data| - pos
      {
        pos := pos + 1;
      }
      pos := pos + 1;
    }

    method SkipForm(form: nat) returns (r: Result<()>)
      modifies this`pos
      ensures match SkipFormAt(data, old(pos), form)
              case Ok(next) => r == Ok(()) && pos == next
              case Err(e) => r == Err(e)
      decreases |data| - pos
    {
      match KindOf(form) {
      case Fixed(size) =>
        pos := pos + size;
      case SignedLeb =>
        var _ :- Sleb128();
      case UnsignedLeb =>
        var _ :- Uleb128();
      case Block(width) =>
        var n :- FixedInt(width);
        pos := pos + n;
      case LebBlock =>
        var n :- Uleb128();
        pos := pos + n;
      case Text =>
        SkipString();
      case Indirect =>
        var inner :- Uleb128();
        r := SkipForm(inner);
        return;
      case Rejected =>
        return Err(UnknownForm);
      }
      r := Ok(());
    }
  }

  // ----- Forms -----

  /** How the value of a form is laid out, as far as the reader knows it. */
  datatype FormKind =
    | Fixed(size: nat)
    | SignedLeb
    | UnsignedLeb
    | Block(width: nat)
    | LebBlock
    | Text
    | Indirect
    | Rejected

  function KindOf(form: nat): FormKind {
    match form
    case 0x0b | 0x11 | 0x0c => Fixed(1)                  // data1, ref1, flag
    case 0x05 | 0x12 => Fixed(2)                         // data2, ref2
    case 0x06 | 0x13 | 0x10 | 0x17 | 0x0e => Fixed(4)    // data4, ref4, ref_addr, sec_offset, strp
    case 0x0d => SignedLeb                               // sdata
    case 0x0f | 0x15 => UnsignedLeb                      // udata, ref_udata
    case 0x0a => Block(1)                                // block1
    case 0x03 => Block(2)                                // block2
    case 0x04 => Block(4)                                // block4
    case 0x09 | 0x18 => LebBlock                         // block, exprloc
    case 0x08 => Text                                    // string
    case 0x16 => Indirect                                // indirect
    case _ => Rejected
  }

  function SkipFormAt(data: seq<byte>, pos: nat, form: nat): (r: Result<nat>)
    decreases |data| - pos
  {
    match KindOf(form)
    case Fixed(size) => Ok(pos + size)
    case SignedLeb => LebEnd(data, pos, 0)
    case UnsignedLeb => LebEnd(data, pos, 0)
    case Block(width) => SkipBlock(IntAt(data, pos, width))
    case LebBlock => SkipBlock(UlebAt(data, pos))
    case Text => Ok(StringEnd(data, pos))
    case Indirect =>
      var inner :- UlebAt(data, pos);
      SkipFormAt(data, inner.next, inner.value)
    case Rejected => Err(UnknownForm)
  }

  function SkipBlock(size: Result<Read<nat>>): Result<nat> {
    var s :- size;
    Ok(s.next + s.value)
  }

  /** The size of the values of the forms that section 7.5.4 defines and the reader rejects. */
  function RejectedSize(form: nat): Option<nat> {
    match form
    case 0x01 | 0x07 | 0x14 | 0x20 => Some(8)            // addr, data8, ref8, ref_sig8
    case 0x19 => Some(0)                                 // flag_present
    case _ => None
  }

  /** The complete encodings of one value of a form (section 7.5.4 of DWARF 4), with addresses of eight
      bytes and section offsets of four. */
  predicate IsEncoding(form: nat, bs: seq<byte>)
    decreases |bs|
  {
    match KindOf(form)
    case Fixed(size) => |bs| == size
    case SignedLeb => IsLeb(bs)
    case UnsignedLeb => IsLeb(bs)
    case Block(width) => |bs| >= width && |bs| == width + LittleEndian(bs[..width])
    case LebBlock => UlebAt(bs, 0).Ok? && |bs| == UlebAt(bs, 0).value.next + UlebAt(bs, 0).value.value
    case Text => bs != [] && bs[|bs| - 1] == 0 && forall i :: 0 <= i < |bs| - 1 ==> bs[i] != 0
    case Indirect =>
      UlebAt(bs, 0).Ok? && IsEncoding(UlebAt(bs, 0).value.value, bs[UlebAt(bs, 0).value.next..])
    case Rejected => RejectedSize(form) == Some(|bs|)
  }

  /** The form of the value, behind any indirection, is one that the reader rejects. */
  predicate Rejects(form: nat, bs: seq<byte>)
    decreases |bs|
  {
    match KindOf(form)
    case Rejected => true
    case Indirect => UlebAt(bs, 0).Ok? && Rejects(UlebAt(bs, 0).value.value, bs[UlebAt(bs, 0).value.next..])
    case _ => false
  }

  // ----- Arithmetic of the seven-bit groups -----

  lemma {:induction false} GroupsSnoc(bs: seq<byte>, b: byte)
    ensures Groups(bs + [b]) == Groups(bs) + b % 0x80 * Pow128(|bs|)
  {
    if bs == [] {
      assert Groups([b]) == b % 0x80 + 0x80 * Groups([]);
    } else {
      GroupsSnoc(bs[1..], b);
      assert (bs + [b])[1..] == bs[1..] + [b];
      assert 0x80 * (b % 0x80 * Pow128(|bs| - 1)) == b % 0x80 * Pow128(|bs|);
    }
  }

  lemma {:induction false} GroupsBound(bs: seq<byte>)
    ensures Groups(bs) < Pow128(|bs|)
  {
    if bs != [] {
      GroupsBound(bs[1..]);
    }
  }

  lemma {:induction false} Pow128Is(k: nat)
    ensures Pow128(k) == Pow2(7 * k)
  {
    if k > 0 {
      Pow128Is(k - 1);
      var n := 7 * k;
      assert Pow2(n) == 2 * Pow2(n - 1) && Pow2(n - 1) == 2 * Pow2(n - 2) && Pow2(n - 2) == 2 * Pow2(n - 3);
      assert Pow2(n - 3) == 2 * Pow2(n - 4) && Pow2(n - 4) == 2 * Pow2(n - 5);
      assert Pow2(n - 5) == 2 * Pow2(n - 6) && Pow2(n - 6) == 2 * Pow2(n - 7);
    }
  }

  lemma {:induction false} Pow128Monotone(j: nat, k: nat)
    requires j <= k
    ensures 1 <= Pow128(j) <= Pow128(k)
    decreases k
  {
    if j < k {
      Pow128Monotone(j, k - 1);
    } else if k > 0 {
      Pow128Monotone(j - 1, k - 1);
    }
  }

  lemma Pow128Nine()
    ensures Pow128(1) == 0x80 && Pow128(9) == TWO_63 && Pow128(10) == 0x80 * TWO_63
  {
    assert Pow128(1) == 0x80 * Pow128(0);
    assert Pow128(2) == 0x80 * Pow128(1);
    assert Pow128(3) == 0x80 * Pow128(2);
    assert Pow128(4) == 0x80 * Pow128(3);
    assert Pow128(5) == 0x80 * Pow128(4);
    assert Pow128(6) == 0x80 * Pow128(5);
    assert Pow128(7) == 0x80 * Pow128(6);
    assert Pow128(8) == 0x80 * Pow128(7);
    assert Pow128(9) == 0x80 * Pow128(8);
    assert Pow128(10) == 0x80 * Pow128(9);
  }

  /** One turn of the loop: the shifted group lies above the bits already there, and adding it gives
      the groups so far, modulo 2^64. */
  lemma ShiftedGroup(bs: seq<byte>, b: byte)
    requires |bs| <= 9
    ensures Wrap64(Groups(bs)) == Groups(bs) < Pow2(7 * |bs|)
    ensures Groups(bs) + ShiftLeft(b % 0x80, 7 * |bs|) == Wrap64(Groups(bs + [b]))
  {
    var p := Pow128(|bs|);
    Pow128Is(|bs|);
    GroupSizes(bs, p);
    assert Groups(bs) + Wrap64(b % 0x80 * p) == Wrap64(Groups(bs + [b])) by {
      AddedGroup(bs, b);
    }
  }

  lemma AddedGroup(bs: seq<byte>, b: byte)
    requires |bs| <= 9
    ensures Groups(bs) + Wrap64(b % 0x80 * Pow128(|bs|)) == Wrap64(Groups(bs + [b]))
  {
    GroupsSnoc(bs, b);
    if |bs| < 9 {
      LowGroups(bs, b);
      LowGroup(Groups(bs), b % 0x80, Pow128(|bs|));
    } else {
      GroupSizes(bs, Pow128(9));
      TopGroup(Groups(bs), b % 0x80);
    }
  }

  lemma LowGroups(bs: seq<byte>, b: byte)
    requires |bs| < 9
    ensures Groups(bs + [b]) < TWO_63
  {
    Pow128Is(|bs| + 1);
    GroupSizes(bs + [b], Pow128(|bs| + 1));
  }

  lemma LowGroup(g: nat, m: nat, p: nat)
    requires g + m * p < TWO_63
    ensures g + Wrap64(m * p) == Wrap64(g + m * p)
  {
    ProductIsNat(m, p);
    var x := m * p;
    assert Wrap64(x) == x && Wrap64(g + x) == g + x;
  }

  lemma ProductIsNat(m: nat, p: nat)
    ensures 0 <= m * p
  {
  }

  lemma GroupSizes(bs: seq<byte>, p: nat)
    requires |bs| <= 9 && p == Pow128(|bs|)
    ensures Groups(bs) < p <= TWO_63 && (|bs| == 9 ==> p == TWO_63)
  {
    GroupsBound(bs);
    Pow128Nine();
    Pow128Monotone(|bs|, 9);
  }

  lemma TopGroup(g: nat, m: nat)
    requires g < TWO_63 && m < 0x80
    ensures g + Wrap64(m * TWO_63) == Wrap64(g + m * TWO_63)
  {
    var q := m / 2;
    assert m * TWO_63 == q * TWO_64 + (m % 2) * TWO_63;
    assert Wrap64(m * TWO_63) == (m % 2) * TWO_63;
    assert g + m * TWO_63 == q * TWO_64 + (g + (m % 2) * TWO_63);
  }

  // ----- LEB128 round trips -----

  lemma {:induction false} LebEndAt(data: seq<byte>, pos: nat, bs: seq<byte>, count: nat)
    requires At(data, pos, bs) && IsLeb(bs) && count + |bs| <= 10
    ensures LebEnd(data, pos, count) == Ok(pos + |bs|)
    decreases |bs|
  {
    AtIndex(data, pos, bs, 0);
    if |bs| > 1 {
      AtSplit(data, pos, bs[..1], bs[1..]) by {
        assert bs[..1] + bs[1..] == bs;
      }
      LebEndAt(data, pos + 1, bs[1..], count + 1);
    }
  }

  /** A number below 128^k takes at most k bytes, and the groups of its encoding give it back. */
  lemma {:induction false} UlebEncodeShape(v: nat, k: nat)
    requires 0 < k <= 10 && v < Pow128(k)
    ensures IsLeb(UlebEncode(v)) && |UlebEncode(v)| <= k
    ensures Groups(UlebEncode(v)) == v
  {
    if v < 0x80 {
      OneGroup(v);
    } else {
      var q, r, p := v / 0x80, v % 0x80, Pow128(k - 1);
      assert v == 0x80 * q + r && q >= 1;
      assert q < p && Pow128(0) == 1;
      UlebEncodeShape(q, k - 1);
      MoreGroups(0x80 + r, UlebEncode(q));
    }
  }

  /** Section 7.6: `uleb128` inverts the encoding of every 64-bit number, wherever it lies, and
      consumes exactly its bytes. */
  lemma UlebRoundTrip(data: seq<byte>, pos: nat, v: u64)
    requires At(data, pos, UlebEncode(v))
    ensures UlebAt(data, pos) == Ok(Read(v, pos + |UlebEncode(v)|))
  {
    Pow128Nine();
    UlebEncodeShape(v, 10);
    LebEndAt(data, pos, UlebEncode(v), 0);
  }

  /** `v` is a signed number of 7k bits. */
  predicate Fits(v: int, k: nat) {
    0 <= 2 * v + Pow128(k) && 2 * v < Pow128(k)
  }

  /** The size and the meaning of a signed encoding: k bytes exactly for the numbers that 7k bits
      hold and 7(k-1) bits do not. */
  lemma {:induction false} SlebEncodeShape(v: int, k: nat)
    requires 0 < k <= 10
    requires Fits(v, k)
    ensures var bs := SlebEncode(v); IsLeb(bs) && |bs| <= k && SlebMeaning(bs) == v
    ensures var n := |SlebEncode(v)|; Fits(v, n) && (n > 1 ==> !Fits(v, n - 1))
    decreases k
  {
    FitsUp(v, k - 1);
    if -0x40 <= v < 0x40 {
      OneGroup(v % 0x80);
    } else {
      SlebEncodeShape(v / 0x80, k - 1);
      OneMoreGroup(v, SlebEncode(v / 0x80));
    }
  }

  lemma OneMoreGroup(v: int, rest: seq<byte>)
    requires !(-0x40 <= v < 0x40) && IsLeb(rest) && |rest| < 10 && SlebMeaning(rest) == v / 0x80
    requires Fits(v / 0x80, |rest|) && (|rest| > 1 ==> !Fits(v / 0x80, |rest| - 1))
    ensures var bs := [0x80 + v % 0x80] + rest;
            IsLeb(bs) && SlebMeaning(bs) == v && Fits(v, |bs|) && !Fits(v, |bs| - 1)
  {
    MoreGroups(0x80 + v % 0x80, rest);
    FitsUp(v, |rest|);
    FitsUp(v, |rest| - 1);
  }

  lemma OneGroup(b: byte)
    requires b < 0x80
    ensures IsLeb([b]) && Groups([b]) == b && SlebMeaning([b]) == if b >= 0x40 then b - 0x80 else b
  {
    assert Groups([b]) == b % 0x80 + 0x80 * Groups([]);
    assert Pow128(1) == 0x80 * Pow128(0);
  }

  lemma MoreGroups(b: byte, rest: seq<byte>)
    requires b >= 0x80 && IsLeb(rest) && |rest| < 10
    ensures var bs := [b] + rest;
            IsLeb(bs) && Groups(bs) == b - 0x80 + 0x80 * Groups(rest) && SlebMeaning(bs) == b - 0x80 + 0x80 * SlebMeaning(rest)
  {
    var bs := [b] + rest;
    assert bs[1..] == rest;
    assert bs[|bs| - 1] == rest[|rest| - 1];
    assert forall i :: 1 <= i < |bs| ==> bs[i] == rest[i - 1];
    assert Pow128(|bs|) == 0x80 * Pow128(|rest|);
  }

  /** Dropping a group of seven bits. */
  lemma FitsUp(v: int, k: nat)
    ensures k > 0 ==> (Fits(v, k + 1) <==> Fits(v / 0x80, k))
    ensures Fits(v, 1) <==> -0x40 <= v < 0x40
    ensures Fits(v, 0) ==> Fits(v, 1)
  {
    assert Pow128(k + 1) == 0x80 * Pow128(k);
    if k > 0 {
      HalfGroup(v, Pow128(k - 1));
    }
    assert Pow128(1) == 0x80 * Pow128(0);
  }

  lemma HalfGroup(v: int, p: nat)
    ensures (0 <= 2 * v + 0x80 * (0x80 * p) && 2 * v < 0x80 * (0x80 * p))
         == (0 <= 2 * (v / 0x80) + 0x80 * p && 2 * (v / 0x80) < 0x80 * p)
  {
    var q, r := v / 0x80, v % 0x80;
    assert v == 0x80 * q + r && 0 <= r < 0x80;
    var h := 0x40 * p;
    assert 0x80 * p == 2 * h && 0x80 * (0x80 * p) == 0x100 * h;
    assert (0 <= v + 0x80 * h) == (0 <= q + h);
    assert (v < 0x80 * h) == (q < h);
  }

  /** How `sleb128` departs from section 7.6 on any LEB128 byte string of up to nine bytes: a
      negative number of two or more bytes comes out too large by 128 to the number of bytes. */
  lemma SlebDeparture(data: seq<byte>, pos: nat, bs: seq<byte>)
    requires At(data, pos, bs) && IsLeb(bs) && |bs| <= 9
    ensures SlebAt(data, pos).Ok? && SlebAt(data, pos).value.next == pos + |bs|
    ensures SlebAt(data, pos).value.value
         == SlebMeaning(bs) + if |bs| > 1 && SlebMeaning(bs) < 0 then Pow128(|bs|) else 0
  {
    LebEndAt(data, pos, bs, 0);
    assert data[pos..pos + |bs|] == bs;
    SmallGroups(bs);
    if |bs| == 1 {
      assert bs == [bs[0]];
      OneGroup(bs[0]);
    } else {
      SignBit(bs);
    }
  }

  lemma SmallGroups(bs: seq<byte>)
    requires |bs| <= 9
    ensures Wrap64(Groups(bs)) == Groups(bs) && Signed64(Groups(bs)) == Groups(bs)
  {
    GroupSizes(bs, Pow128(|bs|));
  }

  /** The sign of the meaning is bit six of the last byte. */
  lemma SignBit(bs: seq<byte>)
    requires IsLeb(bs)
    ensures SlebMeaning(bs) < 0 <==> bs[|bs| - 1] % 0x80 >= 0x40
  {
    GroupsBound(bs);
  }

  /** Section 7.6 for signed numbers: `sleb128` inverts the encoding of a 64-bit number v, except in
      [-2^62, -64), where it returns v + 128^k for the k bytes of the encoding. */
  lemma SlebRoundTrip(data: seq<byte>, pos: nat, v: int)
    requires -TWO_63 <= v < TWO_63
    requires At(data, pos, SlebEncode(v))
    ensures SlebAt(data, pos).Ok? && SlebAt(data, pos).value.next == pos + |SlebEncode(v)|
    ensures SlebAt(data, pos).value.value
         == if -TWO_63 / 2 <= v < -0x40 then v + Pow128(|SlebEncode(v)|) else v
  {
    var bs := SlebEncode(v);
    Pow128Nine();
    SlebEncodeShape(v, 10);
    var n := |bs|;
    LebEndAt(data, pos, bs, 0);
    if n <= 9 {
      Pow128Monotone(n, 9);
      Pow128Monotone(1, n);
      SlebDeparture(data, pos, bs);
      if v < 0 && n == 1 {
        assert Pow128(1) == 0x80;
      }
      if n > 1 {
        Pow128Monotone(1, n - 1);
      }
    } else {
      FullWidth(Groups(bs), v);
    }
  }

  lemma FullWidth(g: nat, v: int)
    requires -TWO_63 <= v < TWO_63
    requires g == v || g == v + 0x80 * TWO_63
    ensures Signed64(Wrap64(g)) == v
  {
    if v < 0 {
      assert g == v + TWO_64 + 63 * TWO_64;
      assert Wrap64(g) == v + TWO_64;
    }
  }

  /** The round trip fails for exactly the negative numbers of two to nine bytes. */
  lemma SlebRoundTripExactly(data: seq<byte>, pos: nat, v: int)
    requires -TWO_63 <= v < TWO_63
    requires At(data, pos, SlebEncode(v))
    ensures SlebAt(data, pos) == Ok(Read(v, pos + |SlebEncode(v)|)) <==> !(-TWO_63 / 2 <= v < -0x40)
  {
    SlebRoundTrip(data, pos, v);
    Pow128Monotone(0, |SlebEncode(v)|);
  }

  /** The witness: the two bytes that encode -65 are read as 16319. */
  lemma SlebMisreadsMinus65()
    ensures SlebEncode(-65) == [0xbf, 0x7f]
    ensures SlebAt([0xbf, 0x7f], 0) == Ok(Read(16319, 2))
  {
    assert SlebEncode(-65) == [0xbf] + SlebEncode(-1);
    SlebRoundTrip([0xbf, 0x7f], 0, -65);
    assert Pow128(2) == 0x80 * Pow128(1);
  }

  // ----- Forms -----

  lemma {:induction false} StringEndAt(data: seq<byte>, pos: nat, bs: seq<byte>)
    requires At(data, pos, bs)
    requires bs != [] && bs[|bs| - 1] == 0 && forall i :: 0 <= i < |bs| - 1 ==> bs[i] != 0
    ensures StringEnd(data, pos) == pos + |bs|
    decreases |bs|
  {
    AtIndex(data, pos, bs, 0);
    if |bs| > 1 {
      AtSplit(data, pos, bs[..1], bs[1..]) by {
        assert bs[..1] + bs[1..] == bs;
      }
      StringEndAt(data, pos + 1, bs[1..]);
    }
  }

  lemma BlockAt(data: seq<byte>, pos: nat, bs: seq<byte>, n: nat)
    requires At(data, pos, bs) && n <= |bs| && |bs| == n + LittleEndian(bs[..n])
    ensures SkipBlock(IntAt(data, pos, n)) == Ok(pos + |bs|)
  {
    assert bs[..n] + bs[n..] == bs;
    AtSplit(data, pos, bs[..n], bs[n..]);
  }

  lemma {:induction false} LebEndLocal(data: seq<byte>, pos: nat, bs: seq<byte>, i: nat, count: nat)
    requires At(data, pos, bs) && LebEnd(bs, i, count).Ok?
    ensures LebEnd(data, pos + i, count) == Ok(pos + LebEnd(bs, i, count).value)
    decreases |bs| - i
  {
    AtIndex(data, pos, bs, i);
    if bs[i] >= 0x80 {
      LebEndLocal(data, pos, bs, i + 1, count + 1);
    }
  }

  /** The LEB128 number that starts an encoding, read in place. */
  lemma LeadingUleb(data: seq<byte>, pos: nat, bs: seq<byte>)
    requires At(data, pos, bs) && UlebAt(bs, 0).Ok?
    ensures var leb := UlebAt(bs, 0).value;
            UlebAt(data, pos) == Ok(Read(leb.value, pos + leb.next)) && At(data, pos + leb.next, bs[leb.next..])
  {
    LebEndLocal(data, pos, bs, 0, 0);
    var k := UlebAt(bs, 0).value.next;
    assert bs[..k] + bs[k..] == bs;
    AtSplit(data, pos, bs[..k], bs[k..]);
    assert bs[..k] == bs[0..k];
  }

  /** On the value of any form of section 7.5.4, indirect forms of any depth included, `skip_form` fails
      when the form is one that it rejects, and otherwise steps over exactly that value. */
  lemma SkipFormExactly(data: seq<byte>, pos: nat, form: nat, bs: seq<byte>)
    requires At(data, pos, bs) && IsEncoding(form, bs)
    ensures SkipFormAt(data, pos, form) == if Rejects(form, bs) then Err(UnknownForm) else Ok(pos + |bs|)
  {
    EachFormSkips(data, pos, form, bs);
  }

  ghost predicate Skips(data: seq<byte>, pos: nat, form: nat, bs: seq<byte>) {
    SkipFormAt(data, pos, form) == if Rejects(form, bs) then Err(UnknownForm) else Ok(pos + |bs|)
  }

  lemma {:induction false} EachFormSkips(data: seq<byte>, pos: nat, form: nat, bs: seq<byte>)
    requires At(data, pos, bs) && IsEncoding(form, bs)
    ensures Skips(data, pos, form, bs)
    decreases |bs|
  {
    if KindOf(form).Indirect? {
      var inner, rest := InnerForm(data, pos, form, bs);
      EachFormSkips(data, pos + inner.next, inner.value, rest);
      IndirectForm(data, pos, form, bs, inner, rest);
    } else {
      OtherForm(data, pos, form, bs);
    }
  }

  lemma OtherForm(data: seq<byte>, pos: nat, form: nat, bs: seq<byte>)
    requires At(data, pos, bs) && IsEncoding(form, bs) && !KindOf(form).Indirect?
    ensures Skips(data, pos, form, bs)
  {
    if !KindOf(form).Rejected? {
      SkipDirectForm(data, pos, form, bs);
    }
  }

  /** The form and the value that an indirect form starts. */
  lemma InnerForm(data: seq<byte>, pos: nat, form: nat, bs: seq<byte>) returns (inner: Read<nat>, rest: seq<byte>)
    requires At(data, pos, bs) && IsEncoding(form, bs) && KindOf(form).Indirect?
    ensures UlebAt(bs, 0) == Ok(inner) && UlebAt(data, pos) == Ok(Read(inner.value, pos + inner.next))
    ensures 0 < inner.next <= |bs| && rest == bs[inner.next..] && |rest| < |bs|
    ensures At(data, pos + inner.next, rest) && IsEncoding(inner.value, rest)
  {
    LeadingUleb(data, pos, bs);
    inner := UlebAt(bs, 0).value;
    rest := bs[inner.next..];
  }

  lemma IndirectForm(data: seq<byte>, pos: nat, form: nat, bs: seq<byte>, inner: Read<nat>, rest: seq<byte>)
    requires KindOf(form).Indirect? && UlebAt(bs, 0) == Ok(inner) && UlebAt(data, pos) == Ok(Read(inner.value, pos + inner.next))
    requires inner.next <= |bs| && rest == bs[inner.next..] && Skips(data, pos + inner.next, inner.value, rest)
    ensures Skips(data, pos, form, bs)
  {
  }

  lemma {:induction false} SkipDirectForm(data: seq<byte>, pos: nat, form: nat, bs: seq<byte>)
    requires At(data, pos, bs) && IsEncoding(form, bs) && !KindOf(form).Indirect? && !KindOf(form).Rejected?
    ensures SkipFormAt(data, pos, form) == Ok(pos + |bs|)
  {
    match KindOf(form)
    case Fixed(_) =>
    case SignedLeb =>
      LebEndAt(data, pos, bs, 0);
    case UnsignedLeb =>
      LebEndAt(data, pos, bs, 0);
    case Block(width) =>
      BlockAt(data, pos, bs, width);
    case LebBlock =>
      LeadingUleb(data, pos, bs);
    case Text =>
      StringEndAt(data, pos, bs);
  }

  // ----- Sizes by form -----

  /** What skipping does for each form by its number (section 7.5.4 of DWARF 4): the fixed sizes, the numbers, the
      blocks and the text. */
  lemma FormSizes(data: seq<byte>, pos: nat, form: nat)
    ensures form in {0x0b, 0x0c, 0x11} ==> SkipFormAt(data, pos, form) == Ok(pos + 1)
    ensures form in {0x05, 0x12} ==> SkipFormAt(data, pos, form) == Ok(pos + 2)
    ensures form in {0x06, 0x0e, 0x10, 0x13, 0x17} ==> SkipFormAt(data, pos, form) == Ok(pos + 4)
    ensures form in {0x0d, 0x0f, 0x15} ==> SkipFormAt(data, pos, form) == LebEnd(data, pos, 0)
    ensures form == 0x0a && pos < |data| ==> SkipFormAt(data, pos, form) == Ok(pos + 1 + data[pos])
    ensures form == 0x03 && pos + 2 <= |data| ==> SkipFormAt(data, pos, form) == Ok(pos + 2 + LittleEndian(data[pos..pos + 2]))
    ensures form == 0x04 && pos + 4 <= |data| ==> SkipFormAt(data, pos, form) == Ok(pos + 4 + LittleEndian(data[pos..pos + 4]))
    ensures form in {0x09, 0x18} && UlebAt(data, pos).Ok? ==>
              SkipFormAt(data, pos, form) == Ok(UlebAt(data, pos).value.next + UlebAt(data, pos).value.value)
    ensures form == 0x08 ==> SkipFormAt(data, pos, form) == Ok(StringEnd(data, pos))
    ensures form == 0x16 && UlebAt(data, pos).Ok? ==>
              SkipFormAt(data, pos, form) == SkipFormAt(data, UlebAt(data, pos).value.next, UlebAt(data, pos).value.value)
    ensures form in {0x01, 0x07, 0x14, 0x19, 0x20} ==> SkipFormAt(data, pos, form) == Err(UnknownForm)
  {
    if form == 0x0a && pos < |data| {
      assert data[pos..pos + 1] == [data[pos]] && LittleEndian([data[pos]]) == data[pos];
    }
  }
}
