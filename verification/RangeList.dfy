/** Range lists (section 2.17.3 of DWARF 4): the iterator that carries the base address from entry to
    entry, and `contains`. */
module RangeLists {
  import opened Words
  import opened Cursors

  const BASE_FLAG: u64 := 0xffff_ffff_ffff_ffff

  /** A range as the iterator yields it, base address applied. */
  datatype Range = Range(low: u64, high: u64) {
    predicate Contains(address: u64) {
      low <= address < high
    }
  }

  function Rebase(low: u64, high: u64, base: u64): Range {
    Range(Wrap64(low + base), Wrap64(high + base))
  }

  // ----- The list as section 2.17.3 describes it -----

  datatype Entry = BaseSelection(address: u64) | Pair(low: u64, high: u64)

  /** A pair that cannot be taken for a base selection or for the end of the list. */
  predicate Proper(e: Entry) {
    e.Pair? ==> e.low != BASE_FLAG && !(e.low == 0 && e.high == 0)
  }

  function EncodeEntry(e: Entry): (bs: seq<byte>)
    ensures |bs| == 16
  {
    ToBytes(FirstWord(e), 8) + ToBytes(if e.Pair? then e.high else e.address, 8)
  }

  function FirstWord(e: Entry): u64 {
    if e.Pair? then e.low else BASE_FLAG
  }

  /** What ends a list. */
  const END_OF_LIST := Pair(0, 0)

  function Encode(es: seq<Entry>): seq<byte> {
    if es == [] then EncodeEntry(END_OF_LIST) else EncodeEntry(es[0]) + Encode(es[1..])
  }

  /** The base address in force at entry `i`: the latest selection before it, or the unit's own. */
  function BaseBefore(es: seq<Entry>, i: nat, base: u64): u64
    requires i <= |es|
  {
    if i == 0 then base
    else if es[i - 1].BaseSelection? then es[i - 1].address
    else BaseBefore(es, i - 1, base)
  }

  /** The ranges among the first `n` entries, each relative to the base in force at its entry. */
  function Meaning(es: seq<Entry>, n: nat, base: u64): seq<Range>
    requires n <= |es|
  {
    if n == 0 then []
    else
      Meaning(es, n - 1, base)
      + if es[n - 1].Pair? then [Rebase(es[n - 1].low, es[n - 1].high, BaseBefore(es, n - 1, base))] else []
  }

  // ----- The bytes, read from the front -----

  /** One `++`: skip base selections, then stop at the end of the list or at a pair. */
  datatype Step = End(base: u64) | Item(range: Range, next: nat, base: u64)

  function StepAt(data: seq<byte>, pos: nat, base: u64): (r: Result<Step>)
    ensures r.Ok? && r.value.Item? ==> pos < r.value.next <= |data|
    decreases |data| - pos
  {
    var low :- IntAt(data, pos, 8);
    var high :- IntAt(data, pos + 8, 8);
    WordBound(data, pos);
    WordBound(data, pos + 8);
    if low.value == BASE_FLAG then StepAt(data, pos + 16, high.value)
    else if low.value == 0 && high.value == 0 then Ok(End(base))
    else Ok(Item(Rebase(low.value, high.value, base), pos + 16, base))
  }

  lemma WordBound(data: seq<byte>, pos: nat)
    ensures IntAt(data, pos, 8).Ok? ==> IntAt(data, pos, 8).value.value < TWO_64
  {
    if pos + 8 <= |data| {
      LittleEndianBound(data[pos..pos + 8]);
      Pow256Values();
    }
  }

  /** All the ranges from `pos` to the end of the list. */
  function Decode(data: seq<byte>, pos: nat, base: u64): Result<seq<Range>>
    decreases |data| - pos
  {
    var step :- StepAt(data, pos, base);
    match step
    case End(_) => Ok([])
    case Item(range, next, base') =>
      var rest :- Decode(data, next, base');
      Ok([range] + rest)
  }

  // ----- The iterator -----

  class Iterator {
    const data: seq<byte>
    var base: u64
    var pos: Option<nat>
    var current: Range

    /** The ranges still to come after the current one. */
    ghost function Rest(): Result<seq<Range>>
      reads this
      requires pos.Some?
    {
      Decode(data, pos.value, base)
    }

    /** The iterator before its first `++`; the source's constructor goes on to `Advance`. */
    constructor (data: seq<byte>, base: u64)
      ensures this.data == data && this.base == base && pos == Some(0)
    {
      this.data := data;
      this.base := base;
      this.pos := Some(0);
      this.current := Range(0, 0);
    }

    method Advance() returns (r: Result<()>)
      requires pos.Some?
      modifies this
      ensures match StepAt(data, old(pos.value), old(base))
              case Err(e) => r == Err(e)
              case Ok(End(b)) => r == Ok(()) && pos == None && base == b
              case Ok(Item(range, next, b)) => r == Ok(()) && pos == Some(next) && base == b && current == range
    {
      var cur := new Cursor(data, pos.value);
      while true
        invariant cur.data == data && fresh(cur)
        invariant StepAt(data, old(pos.value), old(base)) == StepAt(data, cur.pos, base)
        decreases |data| - cur.pos
      {
        ghost var start := cur.pos;
        WordBound(data, start);
        WordBound(data, start + 8);
        var low :- cur.FixedInt(8);
        var high :- cur.FixedInt(8);
        if low == BASE_FLAG {
          base := high;
        } else if low == 0 && high == 0 {
          pos := None;
          return Ok(());
        } else {
          pos := Some(cur.pos);
          current := Rebase(low, high, base);
          return Ok(());
        }
      }
    }
  }

  /** Whether some range from `pos` on contains the address, read no further than that range. */
  function Search(data: seq<byte>, pos: nat, base: u64, address: u64): Result<bool>
    decreases |data| - pos
  {
    var step :- StepAt(data, pos, base);
    match step
    case End(_) => Ok(false)
    case Item(range, next, base') => if range.Contains(address) then Ok(true) else Search(data, next, base', address)
  }

  /** `range_list::contains`: the any-of loop over the iterator. */
  method Contains(data: seq<byte>, base: u64, address: u64) returns (r: Result<bool>)
    ensures r == Search(data, 0, base, address)
  {
    var it := new Iterator(data, base);
    var _ :- it.Advance();
    while it.pos.Some?
      invariant it.data == data && fresh(it)
      invariant it.pos.Some? ==> it.pos.value <= |data|
      invariant Search(data, 0, base, address)
             == if it.pos.None? then Ok(false)
                else if it.current.Contains(address) then Ok(true)
                else Search(data, it.pos.value, it.base, address)
      decreases if it.pos.Some? then |data| + 1 - it.pos.value else 0
    {
      if it.current.Contains(address) {
        return Ok(true);
      }
      var _ :- it.Advance();
    }
    r := Ok(false);
  }

  /** On a terminated list the search answers whether some decoded range contains the address. */
  lemma {:induction false} SearchIsAny(data: seq<byte>, pos: nat, base: u64, address: u64)
    requires Decode(data, pos, base).Ok?
    ensures var all := Decode(data, pos, base).value;
            Search(data, pos, base, address) == Ok(exists i :: 0 <= i < |all| && all[i].Contains(address))
    decreases |data| - pos
  {
    var step := StepAt(data, pos, base).value;
    if step.Item? && !step.range.Contains(address) {
      var rest := Decode(data, step.next, step.base).value;
      SearchIsAny(data, step.next, step.base, address);
      var all := [step.range] + rest;
      if i :| 0 <= i < |rest| && rest[i].Contains(address) {
        assert all[i + 1] == rest[i];
      }
      if i :| 0 <= i < |all| && all[i].Contains(address) {
        assert rest[i - 1] == all[i];
      }
    } else if step.Item? {
      assert Decode(data, pos, base).value[0].Contains(address);
    }
  }

  // ----- The two readings agree -----

  lemma WordAt(data: seq<byte>, pos: nat, v: u64)
    requires At(data, pos, ToBytes(v, 8))
    ensures IntAt(data, pos, 8) == Ok(Read(v, pos + 8))
  {
    Pow256Values();
    LittleEndianRoundTrip(v, 8);
  }

  lemma PairAt(data: seq<byte>, pos: nat, a: u64, b: u64, rest: seq<byte>)
    requires At(data, pos, ToBytes(a, 8) + ToBytes(b, 8) + rest)
    ensures IntAt(data, pos, 8) == Ok(Read(a, pos + 8)) && IntAt(data, pos + 8, 8) == Ok(Read(b, pos + 16))
    ensures At(data, pos + 16, rest)
  {
    AtSplit(data, pos, ToBytes(a, 8) + ToBytes(b, 8), rest);
    AtSplit(data, pos, ToBytes(a, 8), ToBytes(b, 8));
    WordAt(data, pos, a);
    WordAt(data, pos + 8, b);
  }

  /** The ranges of a list, read from the front with the base in hand. */
  function MeaningFrom(es: seq<Entry>, base: u64): seq<Range> {
    if es == [] then []
    else match es[0]
      case BaseSelection(address) => MeaningFrom(es[1..], address)
      case Pair(low, high) => [Rebase(low, high, base)] + MeaningFrom(es[1..], base)
  }

  lemma {:induction false} MeaningFromFront(es: seq<Entry>, i: nat, base: u64)
    requires i <= |es|
    ensures Meaning(es, i, base) + MeaningFrom(es[i..], BaseBefore(es, i, base)) == Meaning(es, |es|, base)
    decreases |es| - i
  {
    if i < |es| {
      MeaningFromFront(es, i + 1, base);
      assert es[i..][1..] == es[i + 1..];
    }
  }

  lemma {:induction false} DecodeFrom(data: seq<byte>, pos: nat, es: seq<Entry>, base: u64)
    requires forall e :: e in es ==> Proper(e)
    requires At(data, pos, Encode(es))
    ensures Decode(data, pos, base) == Ok(MeaningFrom(es, base))
    decreases es
  {
    if es == [] {
      EmptyList(data, pos, base);
    } else {
      FirstEntry(data, pos, es[0], Encode(es[1..]), base);
      match es[0]
      case BaseSelection(address) => DecodeFrom(data, pos + 16, es[1..], address);
      case Pair(_, _) => DecodeFrom(data, pos + 16, es[1..], base);
    }
  }

  lemma EmptyList(data: seq<byte>, pos: nat, base: u64)
    requires At(data, pos, Encode([]))
    ensures Decode(data, pos, base) == Ok([])
  {
    assert Encode([]) == EncodeEntry(END_OF_LIST) + [];
    PairAt(data, pos, 0, 0, []);
    assert StepAt(data, pos, base) == Ok(End(base));
  }

  lemma FirstEntry(data: seq<byte>, pos: nat, e: Entry, rest: seq<byte>, base: u64)
    requires Proper(e) && At(data, pos, EncodeEntry(e) + rest)
    ensures At(data, pos + 16, rest)
    ensures match e
            case BaseSelection(address) => Decode(data, pos, base) == Decode(data, pos + 16, address)
            case Pair(low, high) =>
              var tail := Decode(data, pos + 16, base);
              tail.Ok? ==> Decode(data, pos, base) == Ok([Rebase(low, high, base)] + tail.value)
  {
    match e
    case BaseSelection(address) =>
      PairAt(data, pos, BASE_FLAG, address, rest);
      assert StepAt(data, pos, base) == StepAt(data, pos + 16, address);
    case Pair(low, high) =>
      PairAt(data, pos, low, high, rest);
      assert StepAt(data, pos, base) == Ok(Item(Rebase(low, high, base), pos + 16, base));
  }

  /** Every list that section 2.17.3 can express, laid out in memory, is iterated as it means. */
  lemma DecodeIsMeaning(data: seq<byte>, es: seq<Entry>, base: u64)
    requires forall e :: e in es ==> Proper(e)
    requires At(data, 0, Encode(es))
    ensures Decode(data, 0, base) == Ok(Meaning(es, |es|, base))
  {
    DecodeFrom(data, 0, es, base);
    MeaningFromFront(es, 0, base);
    assert es[0..] == es;
    assert Meaning(es, 0, base) + MeaningFrom(es, base) == MeaningFrom(es, base);
  }

  lemma {:induction false} MeaningMember(es: seq<Entry>, n: nat, base: u64, address: u64)
    requires n <= |es|
    ensures (exists k :: 0 <= k < |Meaning(es, n, base)| && Meaning(es, n, base)[k].Contains(address))
       <==> (exists i :: 0 <= i < n && Covers(es, i, base, address))
  {
    if n > 0 {
      MeaningMember(es, n - 1, base, address);
      var before, now := Meaning(es, n - 1, base), Meaning(es, n, base);
      if k :| 0 <= k < |before| && before[k].Contains(address) {
        assert now[k] == before[k];
      }
      if Covers(es, n - 1, base, address) {
        assert now[|before|].Contains(address);
      }
    }
  }

  /** The base in force is that of the last selection before the entry, and without one the list's own. */
  lemma {:induction false} BaseIsLatest(es: seq<Entry>, i: nat, base: u64, j: nat)
    requires j <= i <= |es| && forall l :: j <= l < i ==> es[l].Pair?
    ensures j > 0 && es[j - 1].BaseSelection? ==> BaseBefore(es, i, base) == es[j - 1].address
    ensures j == 0 ==> BaseBefore(es, i, base) == base
    decreases i
  {
    if j < i {
      BaseIsLatest(es, i - 1, base, j);
    }
  }

  /** Entry `i` is a pair, and the address is at or above its first number and below its second, both added to the
      base in force, modulo 2^64. */
  predicate Covers(es: seq<Entry>, i: nat, base: u64, address: u64)
    requires i < |es|
  {
    es[i].Pair?
    && var b := BaseBefore(es, i, base);
       (b + es[i].low) % 0x1_0000_0000_0000_0000 <= address < (b + es[i].high) % 0x1_0000_0000_0000_0000
  }

  /** The first pair of a list, from the base in force. */
  predicate IsFirstPair(es: seq<Entry>, j: nat) {
    j < |es| && es[j].Pair? && Proper(es[j]) && forall i :: 0 <= i < j ==> es[i].BaseSelection?
  }

  /** A range starts at this number added to this base. */
  predicate StartsAt(step: Result<Step>, from: u64, low: u64) {
    step.Ok? && step.value.Item? && step.value.range.low == (from + low) % 0x1_0000_0000_0000_0000
  }

  /** It starts at its first number added to that base. */
  lemma {:induction false} FirstPair(data: seq<byte>, pos: nat, es: seq<Entry>, base: u64, j: nat)
    requires At(data, pos, Encode(es)) && IsFirstPair(es, j)
    ensures StartsAt(StepAt(data, pos, base), BaseBefore(es, j, base), es[j].low)
    decreases j
  {
    if j == 0 {
      StepOnPair(data, pos, es[0], Encode(es[1..]), base);
    } else {
      StepOnBase(data, pos, es[0].address, Encode(es[1..]), base);
      FirstPair(data, pos + 16, es[1..], es[0].address, j - 1);
      BaseLater(es, j, base);
    }
  }

  lemma StepOnPair(data: seq<byte>, pos: nat, e: Entry, rest: seq<byte>, base: u64)
    requires e.Pair? && Proper(e) && At(data, pos, EncodeEntry(e) + rest)
    ensures StepAt(data, pos, base) == Ok(Item(Rebase(e.low, e.high, base), pos + 16, base))
  {
    PairAt(data, pos, e.low, e.high, rest);
  }

  lemma StepOnBase(data: seq<byte>, pos: nat, address: u64, rest: seq<byte>, base: u64)
    requires At(data, pos, EncodeEntry(BaseSelection(address)) + rest)
    ensures StepAt(data, pos, base) == StepAt(data, pos + 16, address) && At(data, pos + 16, rest)
  {
    PairAt(data, pos, BASE_FLAG, address, rest);
  }

  lemma {:induction false} BaseLater(es: seq<Entry>, j: nat, base: u64)
    requires 0 < j <= |es| && es[0].BaseSelection?
    ensures BaseBefore(es, j, base) == BaseBefore(es[1..], j - 1, es[0].address)
  {
    if j > 1 && es[j - 1].Pair? {
      BaseLater(es, j - 1, base);
    }
  }

  /** So the answer of `contains` is the one for the list as written: some pair of it covers the
      address. */
  lemma ContainsIsCovers(data: seq<byte>, es: seq<Entry>, base: u64, address: u64)
    requires forall e :: e in es ==> Proper(e)
    requires At(data, 0, Encode(es))
    ensures Search(data, 0, base, address) == Ok(exists i :: 0 <= i < |es| && Covers(es, i, base, address))
  {
    DecodeIsMeaning(data, es, base);
    SearchIsAny(data, 0, base, address);
    MeaningMember(es, |es|, base, address);
  }
}
