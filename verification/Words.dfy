/** Machine words, results and byte strings shared by every component. */
module Words {
  type byte = b: int | 0 <= b < 0x100

  const TWO_32 := 0x1_0000_0000
  const TWO_63 := 0x8000_0000_0000_0000
  const TWO_64 := 0x1_0000_0000_0000_0000

  type u64 = x: int | 0 <= x < 0x1_0000_0000_0000_0000

  /** Unsigned 64-bit arithmetic of the source, which wraps around. */
  function Wrap64(x: int): (w: u64)
    ensures 0 <= x < TWO_64 ==> w == x
  {
    x % TWO_64
  }

  /** The conversion of a 64-bit word to `std::int64_t`. */
  function Signed64(x: u64): int {
    if x < TWO_63 then x else x - TWO_64
  }

  /** Every way an operation of the source can fail to return: a thrown error, or a read or a
      shift that the source leaves undefined. */
  datatype Error =
    | OutOfData
    | ShiftTooWide
    | UnknownForm
    | WrongForm
    | UnknownAbbreviation
    | InvalidReference
    | UnknownOpcode
    | InvalidEncoding
    | NotFound
    | MissingRule
    | EmptyRuleStack
    | ExpressionRule
    | UndefinedRegister
    | SizeMismatch
    | Unmapped
    | AlreadyCreated
    | NoFreeRegister
    | InvalidSize

  datatype Result<+T> = Ok(value: T) | Err(error: Error) {
    predicate IsFailure() {
      Err?
    }

    function PropagateFailure<U>(): Result<U>
      requires Err?
    {
      Err(error)
    }

    function Extract(): T
      requires Ok?
    {
      value
    }
  }

  datatype Option<+T> = None | Some(value: T)

  /** A value read from a byte string and the position just after it. */
  datatype Read<+T> = Read(value: T, next: nat)

  /** `bs` occupies `data` from `pos` on. */
  predicate At(data: seq<byte>, pos: nat, bs: seq<byte>) {
    pos + |bs| <= |data| && data[pos..pos + |bs|] == bs
  }

  lemma AtSplit(data: seq<byte>, pos: nat, a: seq<byte>, b: seq<byte>)
    requires At(data, pos, a + b)
    ensures At(data, pos, a) && At(data, pos + |a|, b)
  {
    var whole := data[pos..pos + |a + b|];
    assert whole[..|a|] == a && whole[|a|..] == b;
    assert data[pos..pos + |a|] == whole[..|a|];
    assert data[pos + |a|..pos + |a| + |b|] == whole[|a|..];
  }

  lemma AtIndex(data: seq<byte>, pos: nat, bs: seq<byte>, k: nat)
    requires At(data, pos, bs) && k < |bs|
    ensures data[pos + k] == bs[k]
  {
    assert data[pos..pos + |bs|][k] == bs[k];
  }

  function Concat(parts: seq<seq<byte>>): seq<byte> {
    if parts == [] then [] else parts[0] + Concat(parts[1..])
  }

  /** The value of a byte string read with the least significant byte first. */
  function LittleEndian(bs: seq<byte>): nat {
    if bs == [] then 0 else bs[0] + 0x100 * LittleEndian(bs[1..])
  }

  /** The `n` least significant bytes of `v`, least significant first. */
  function ToBytes(v: nat, n: nat): (bs: seq<byte>)
    ensures |bs| == n
  {
    if n == 0 then [] else [v % 0x100] + ToBytes(v / 0x100, n - 1)
  }

  function Pow256(n: nat): nat {
    if n == 0 then 1 else 0x100 * Pow256(n - 1)
  }

  lemma {:induction false} LittleEndianRoundTrip(v: nat, n: nat)
    requires v < Pow256(n)
    ensures LittleEndian(ToBytes(v, n)) == v
  {
    if n > 0 {
      LittleEndianRoundTrip(v / 0x100, n - 1);
      assert ToBytes(v, n)[1..] == ToBytes(v / 0x100, n - 1);
    }
  }

  lemma {:induction false} LittleEndianBound(bs: seq<byte>)
    ensures LittleEndian(bs) < Pow256(|bs|)
  {
    if bs != [] {
      LittleEndianBound(bs[1..]);
    }
  }

  lemma {:induction false} BytesRoundTrip(bs: seq<byte>)
    ensures ToBytes(LittleEndian(bs), |bs|) == bs
  {
    if bs != [] {
      var v := LittleEndian(bs);
      assert v % 0x100 == bs[0] && v / 0x100 == LittleEndian(bs[1..]);
      BytesRoundTrip(bs[1..]);
    }
  }

  lemma Pow256Values()
    ensures Pow256(1) == 0x100 && Pow256(2) == 0x1_0000 && Pow256(4) == TWO_32 && Pow256(8) == TWO_64
  {
    assert Pow256(2) == 0x100 * Pow256(1);
    assert Pow256(3) == 0x100 * Pow256(2);
    assert Pow256(4) == 0x100 * Pow256(3);
    assert Pow256(5) == 0x100 * Pow256(4);
    assert Pow256(6) == 0x100 * Pow256(5);
    assert Pow256(7) == 0x100 * Pow256(6);
    assert Pow256(8) == 0x100 * Pow256(7);
  }

  lemma HasElement<T>(s: set<T>)
    requires s != {}
    ensures exists x :: x in s
  {
    if forall x :: x !in s {
      assert false;
    }
  }

  /** Any element: the iteration order of an unordered container is left open. */
  method Pick<T>(s: set<T>) returns (x: T)
    requires s != {}
    ensures x in s
  {
    HasElement(s);
    x :| x in s;
  }

  lemma SubsetSize<T>(a: set<T>, b: set<T>)
    requires a <= b
    ensures |a| <= |b|
  {
    assert b == a + (b - a);
  }
}
