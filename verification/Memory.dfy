/** Tracee memory: page-wise reads through `process_vm_readv` and word-wise writes through
    `PTRACE_POKEDATA`. */
module TraceeMemory {
  import opened Words

  /** The mapped bytes. */
  type Memory = map<int, byte>

  const PAGE := 0x1000
  /** The most remote regions that the kernel takes in one call. */
  const IOV_MAX := 1024

  predicate Mapped(m: Memory, address: int, n: nat) {
    forall a :: address <= a < address + n ==> a in m
  }

  function Bytes(m: Memory, address: int, n: nat): (bs: seq<byte>)
    requires Mapped(m, address, n)
    ensures |bs| == n && forall i :: 0 <= i < n ==> bs[i] == m[address + i]
  {
    if n == 0 then [] else Bytes(m, address, n - 1) + [m[address + n - 1]]
  }

  /** Memory with `bs` stored from `address` on. */
  function Stored(m: Memory, address: int, bs: seq<byte>): Memory {
    map a | a in m :: if address <= a < address + |bs| then bs[a - address] else m[a]
  }

  // ----- The kernel's word and vector calls -----

  function Peek(m: Memory, address: int): (r: Result<seq<byte>>)
    ensures r.Ok? ==> |r.value| == 8
  {
    if Mapped(m, address, 8) then Ok(Bytes(m, address, 8)) else Err(Unmapped)
  }

  function Poke(m: Memory, address: int, word: seq<byte>): (r: Result<Memory>)
    requires |word| == 8
    ensures r.Ok? <==> Mapped(m, address, 8)
    ensures r.Ok? ==> r.value == Stored(m, address, word)
  {
    if Mapped(m, address, 8) then Ok(Stored(m, address, word)) else Err(Unmapped)
  }

  datatype Chunk = Chunk(address: int, size: nat)

  /** `process_vm_readv`: chunk after chunk, up to the first that is not mapped. */
  function Transfer(m: Memory, chunks: seq<Chunk>): seq<byte> {
    if chunks == [] || !Mapped(m, chunks[0].address, chunks[0].size) then []
    else Bytes(m, chunks[0].address, chunks[0].size) + Transfer(m, chunks[1..])
  }

  // ----- read_memory -----

  function UpToNextPage(address: int): nat {
    PAGE - address % PAGE
  }

  /** The request split at page boundaries. */
  function ChunksOf(address: int, amount: nat): seq<Chunk>
    decreases amount
  {
    if amount == 0 then []
    else
      var n := if amount < UpToNextPage(address) then amount else UpToNextPage(address);
      [Chunk(address, n)] + ChunksOf(address + n, amount - n)
  }

  /** A short transfer is no error: the rest of the buffer stays zero. Only a transfer of nothing, or
      too many regions, fails. */
  function ReadMemory(m: Memory, address: int, amount: nat): Result<seq<byte>> {
    var chunks := ChunksOf(address, amount);
    var got := Transfer(m, chunks);
    if |chunks| > IOV_MAX || (amount > 0 && got == []) then Err(Unmapped) else Ok(Padded(got, amount))
  }

  function Padded(got: seq<byte>, amount: nat): (bs: seq<byte>)
    ensures |bs| == if |got| <= amount then amount else |got|
    decreases amount - |got|
  {
    if |got| >= amount then got else Padded(got + [0], amount)
  }

  /** These chunks, and those of what is left. */
  predicate Splits(chunks: seq<Chunk>, at: int, left: nat, all: seq<Chunk>) {
    chunks + ChunksOf(at, left) == all
  }

  lemma SplitStep(chunks: seq<Chunk>, at: int, left: nat, size: nat, all: seq<Chunk>)
    requires left > 0 && Splits(chunks, at, left, all)
    requires size == if left < UpToNextPage(at) then left else UpToNextPage(at)
    ensures Splits(chunks + [Chunk(at, size)], at + size, left - size, all)
  {
  }

  method Read(m: Memory, address: int, amount: nat) returns (r: Result<seq<byte>>)
    ensures r == ReadMemory(m, address, amount)
  {
    var chunks: seq<Chunk> := [];
    var at, left: nat := address, amount;
    while left > 0
      invariant Splits(chunks, at, left, ChunksOf(address, amount))
    {
      var upTo := PAGE - at % PAGE;
      var size := if left < upTo then left else upTo;
      SplitStep(chunks, at, left, size, ChunksOf(address, amount));
      chunks := chunks + [Chunk(at, size)];
      left := left - size;
      at := at + size;
    }
    assert chunks == ChunksOf(address, amount);
    var got := Transfer(m, chunks);
    if |chunks| > IOV_MAX || (amount > 0 && got == []) {
      return Err(Unmapped);
    }
    r := Ok(Padded(got, amount));
  }

  /** The chunks are nonempty, follow one another from `address` to the end of the request, and none
      crosses a page. */
  predicate Covers(chunks: seq<Chunk>, address: int, amount: nat) {
    if chunks == [] then amount == 0
    else
      var c := chunks[0];
      && c.address == address && 0 < c.size <= amount
      && c.address / PAGE == (c.address + c.size - 1) / PAGE
      && Covers(chunks[1..], address + c.size, amount - c.size)
  }

  lemma {:induction false} ChunksCover(address: int, amount: nat)
    ensures Covers(ChunksOf(address, amount), address, amount)
    decreases amount
  {
    if amount > 0 {
      var n := if amount < UpToNextPage(address) then amount else UpToNextPage(address);
      ChunksCover(address + n, amount - n);
      OnePage(address, n);
      assert ChunksOf(address, amount)[1..] == ChunksOf(address + n, amount - n);
    }
  }

  lemma OnePage(address: int, n: nat)
    requires 0 < n <= UpToNextPage(address)
    ensures address / PAGE == (address + n - 1) / PAGE
  {
  }

  /** One chunk for each page that the request touches. */
  lemma {:induction false} ChunkCount(address: int, amount: nat)
    ensures amount > 0 ==> |ChunksOf(address, amount)| == (address + amount - 1) / PAGE - address / PAGE + 1
    decreases amount
  {
    if amount > 0 {
      var n := if amount < UpToNextPage(address) then amount else UpToNextPage(address);
      ChunkCount(address + n, amount - n);
      OnePage(address, n);
      if n < amount {
        assert (address + n) / PAGE == address / PAGE + 1;
      }
    }
  }

  lemma {:induction false} TransferMapped(m: Memory, chunks: seq<Chunk>, address: int, amount: nat)
    requires Covers(chunks, address, amount) && Mapped(m, address, amount)
    ensures Transfer(m, chunks) == Bytes(m, address, amount)
    decreases chunks
  {
    if chunks != [] {
      var n := chunks[0].size;
      TransferMapped(m, chunks[1..], address + n, amount - n);
      BytesSplit(m, address, n, amount - n);
    }
  }

  lemma BytesSplit(m: Memory, address: int, j: nat, k: nat)
    requires Mapped(m, address, j + k)
    ensures Mapped(m, address, j) && Mapped(m, address + j, k)
    ensures Bytes(m, address, j + k) == Bytes(m, address, j) + Bytes(m, address + j, k)
  {
    var a, b := Bytes(m, address, j + k), Bytes(m, address, j) + Bytes(m, address + j, k);
    forall i | 0 <= i < j + k
      ensures a[i] == b[i]
    {
    }
  }

  /** `read_memory` returns exactly the requested bytes of a mapped region, whatever its alignment and
      length, as long as it touches no more pages than one call takes. */
  lemma ReadIsBytes(m: Memory, address: int, amount: nat)
    requires Mapped(m, address, amount) && |ChunksOf(address, amount)| <= IOV_MAX
    ensures ReadMemory(m, address, amount) == Ok(Bytes(m, address, amount))
  {
    ChunksCover(address, amount);
    TransferMapped(m, ChunksOf(address, amount), address, amount);
  }

  /** Where the part of a request up to `limit` ends that lies on the page of `a`. */
  function PartEnd(a: int, limit: int): int {
    var page := (a / PAGE + 1) * PAGE;
    if page < limit then page else limit
  }

  lemma FirstPart(address: int, amount: nat, n: nat, a: int, end: int)
    requires address <= a < address + amount && end == PartEnd(a, address + amount)
    requires n == if amount < UpToNextPage(address) then amount else UpToNextPage(address)
    ensures if a < address + n then end == address + n else end > address + n
  {
  }

  lemma MappedSplit(m: Memory, address: int, n: nat, rest: nat)
    ensures Mapped(m, address, n + rest) <==> Mapped(m, address, n) && Mapped(m, address + n, rest)
  {
  }

  lemma {:induction false} TransferExactly(m: Memory, address: int, amount: nat, a: int, end: int)
    requires address <= a < address + amount && end == PartEnd(a, address + amount)
    ensures Tells(m, address, Transfer(m, ChunksOf(address, amount)), a, end)
    decreases amount
  {
    var n := TransferStep(m, address, amount);
    FirstPart(address, amount, n, a, end);
    if a >= address + n {
      TransferExactly(m, address + n, amount - n, a, end);
    }
    StepTells(m, address, n, Transfer(m, ChunksOf(address, amount)), Transfer(m, ChunksOf(address + n, amount - n)), a, end);
  }

  /** The byte at `a`, whose part ends at `end`, is transferred if and only if everything up to there is mapped. */
  predicate Tells(m: Memory, address: int, got: seq<byte>, a: int, end: int) {
    && address <= a < end
    && (a - address < |got| <==> Mapped(m, address, end - address))
    && (a - address < |got| ==> a in m && got[a - address] == m[a])
  }

  lemma StepTells(m: Memory, address: int, n: nat, got: seq<byte>, rest: seq<byte>, a: int, end: int)
    requires got == if Mapped(m, address, n) then Bytes(m, address, n) + rest else []
    requires address <= a && if a < address + n then end == address + n else end > address + n && Tells(m, address + n, rest, a, end)
    ensures Tells(m, address, got, a, end)
  {
    MappedSplit(m, address, n, end - address - n);
  }

  lemma TransferStep(m: Memory, address: int, amount: nat) returns (n: nat)
    requires amount > 0
    ensures n == if amount < UpToNextPage(address) then amount else UpToNextPage(address)
    ensures Transfer(m, ChunksOf(address, amount))
         == if Mapped(m, address, n) then Bytes(m, address, n) + Transfer(m, ChunksOf(address + n, amount - n)) else []
  {
    n := if amount < UpToNextPage(address) then amount else UpToNextPage(address);
    assert ChunksOf(address, amount)[1..] == ChunksOf(address + n, amount - n);
  }

  lemma {:induction false} PaddedAt(got: seq<byte>, amount: nat, i: nat)
    requires i < amount
    ensures Padded(got, amount)[i] == if i < |got| then got[i] else 0
    decreases amount - |got|
  {
    if |got| < amount {
      PaddedAt(got + [0], amount, i);
    }
  }

  /** A read of at most as many pages as one call takes fails if and only if its first part, up to the end of the
      page, is not mapped. Otherwise each byte is the tracee's when everything up to the end of its own part is
      mapped, and zero when not. */
  lemma ReadExactly(m: Memory, address: int, amount: nat)
    requires amount > 0 && (address + amount - 1) / PAGE - address / PAGE < 1024
    ensures var r, limit := ReadMemory(m, address, amount), address + amount;
            && (r.Ok? <==> Mapped(m, address, PartEnd(address, limit) - address))
            && (r.Ok? ==> |r.value| == amount && forall i :: 0 <= i < amount ==>
                  r.value[i] == if Mapped(m, address, PartEnd(address + i, limit) - address) then m[address + i] else 0)
  {
    var got := Transfer(m, ChunksOf(address, amount));
    ChunkCount(address, amount);
    ReadLength(m, address, amount);
    TransferExactly(m, address, amount, address, PartEnd(address, address + amount));
    if got != [] {
      forall i | 0 <= i < amount
        ensures Padded(got, amount)[i] == if Mapped(m, address, PartEnd(address + i, address + amount) - address) then m[address + i] else 0
      {
        TransferExactly(m, address, amount, address + i, PartEnd(address + i, address + amount));
        PaddedAt(got, amount, i);
      }
    }
  }

  // ----- write_memory -----

  /** The word that the next poke stores: eight bytes of data, or what is left of it filled up with what
      memory holds. */
  function NextWord(m: Memory, address: int, data: seq<byte>): (r: Result<seq<byte>>)
    ensures r.Ok? ==> |r.value| == 8
  {
    if |data| >= 8 then Ok(data[..8])
    else
      ReadLength(m, address, 8);
      var old_ :- ReadMemory(m, address, 8);
      Ok(data + old_[|data|..])
  }

  function AfterWord(data: seq<byte>): seq<byte> {
    if |data| >= 8 then data[8..] else []
  }

  function PokeNext(m: Memory, address: int, data: seq<byte>): Result<Memory> {
    var word :- NextWord(m, address, data);
    Poke(m, address, word)
  }

  /** On a failed word the earlier ones stay written. */
  datatype Written = Written(result: Result<()>, memory: Memory)

  function WriteMemory(m: Memory, address: int, data: seq<byte>): Written
    decreases |data|
  {
    if data == [] then Written(Ok(()), m)
    else
      match PokeNext(m, address, data)
      case Err(e) => Written(Err(e), m)
      case Ok(m') => WriteMemory(m', address + 8, AfterWord(data))
  }

  lemma {:induction false} TransferLength(m: Memory, chunks: seq<Chunk>, address: int, amount: nat)
    requires Covers(chunks, address, amount)
    ensures |Transfer(m, chunks)| <= amount
    decreases chunks
  {
    if chunks != [] && Mapped(m, chunks[0].address, chunks[0].size) {
      TransferLength(m, chunks[1..], address + chunks[0].size, amount - chunks[0].size);
    }
  }

  lemma ReadLength(m: Memory, address: int, amount: nat)
    ensures ReadMemory(m, address, amount).Ok? ==> |ReadMemory(m, address, amount).value| == amount
  {
    ChunksCover(address, amount);
    TransferLength(m, ChunksOf(address, amount), address, amount);
  }

  /** The write comes to this, from what is written so far. */
  ghost predicate Remains(outcome: Written, m: Memory, address: int, data: seq<byte>, written: nat) {
    outcome == WriteMemory(m, address + written, Rest(data, written))
  }

  lemma WordTaken(outcome: Written, m: Memory, address: int, data: seq<byte>, written: nat, word: Result<seq<byte>>)
    requires written < |data| && Remains(outcome, m, address, data, written) && word == NextWord(m, address + written, Rest(data, written))
    ensures word.Err? ==> outcome == Written(Err(word.error), m)
    ensures word.Ok? ==> var poked := Poke(m, address + written, word.value);
              && (poked.Err? ==> outcome == Written(Err(poked.error), m))
              && (poked.Ok? ==> Remains(outcome, poked.value, address, data, written + 8))
  {
    RestAfterWord(data, written);
  }

  /** One turn of the loop. `outcome` is what the rest of the write comes to. */
  method WriteWord(m: Memory, address: int, data: seq<byte>, written: nat, ghost outcome: Written) returns (r: Result<Memory>)
    requires written < |data| && Remains(outcome, m, address, data, written)
    ensures r.Err? ==> outcome == Written(Err(r.error), m)
    ensures r.Ok? ==> Remains(outcome, r.value, address, data, written + 8)
  {
    var taken := TakeWord(m, address + written, data, written);
    WordTaken(outcome, m, address, data, written, taken);
    var word :- taken;
    r := Poke(m, address + written, word);
  }

  method TakeWord(m: Memory, at: int, data: seq<byte>, written: nat) returns (word: Result<seq<byte>>)
    requires written < |data|
    ensures word == NextWord(m, at, Rest(data, written))
  {
    var remaining := |data| - written;
    if remaining >= 8 {
      word := Ok(data[written..written + 8]);
      assert word.value == Rest(data, written)[..8];
    } else {
      ReadLength(m, at, 8);
      var read :- Read(m, at, 8);
      word := Ok(data[written..] + read[remaining..]);
    }
  }

  method Write(m: Memory, address: int, data: seq<byte>) returns (r: Result<()>, memory: Memory)
    ensures Written(r, memory) == WriteMemory(m, address, data)
  {
    var written: nat := 0;
    ghost var outcome := AllLeft(m, address, data);
    memory := m;
    while written < |data|
      invariant Remains(outcome, memory, address, data, written)
      decreases |data| - written
    {
      var poked := WriteWord(memory, address, data, written, outcome);
      if poked.Err? {
        return Err(poked.error), memory;
      }
      memory := poked.value;
      written := written + 8;
    }
    NothingLeft(outcome, memory, address, data, written);
    r := Ok(());
  }

  lemma NothingLeft(outcome: Written, m: Memory, address: int, data: seq<byte>, written: nat)
    requires written >= |data| && Remains(outcome, m, address, data, written)
    ensures outcome == Written(Ok(()), m)
  {
  }

  lemma AllLeft(m: Memory, address: int, data: seq<byte>) returns (outcome: Written)
    ensures outcome == WriteMemory(m, address, data) && Remains(outcome, m, address, data, 0)
  {
    assert Rest(data, 0) == data;
    outcome := WriteMemory(m, address, data);
  }

  /** The data still to be written; `written` steps past the end on a partial word. */
  function Rest(data: seq<byte>, written: nat): seq<byte> {
    if written <= |data| then data[written..] else []
  }

  lemma RestAfterWord(data: seq<byte>, written: nat)
    ensures AfterWord(Rest(data, written)) == Rest(data, written + 8)
  {
  }

  lemma StoredTwice(m: Memory, address: int, a: seq<byte>, b: seq<byte>)
    ensures Stored(Stored(m, address, a), address + |a|, b) == Stored(m, address, a + b)
  {
  }

  /** A word whose tail is what memory already holds stores only its head. */
  lemma StoredTail(m: Memory, address: int, data: seq<byte>, n: nat)
    requires |data| <= n && Mapped(m, address, n)
    ensures Stored(m, address, data + Bytes(m, address, n)[|data|..]) == Stored(m, address, data)
  {
    var a, b := Stored(m, address, data + Bytes(m, address, n)[|data|..]), Stored(m, address, data);
    forall x | x in m
      ensures a[x] == b[x]
    {
    }
  }

  function RoundedUp(n: nat): nat {
    (n + 7) / 8 * 8
  }

  lemma SmallRead(m: Memory, address: int)
    requires Mapped(m, address, 8)
    ensures ReadMemory(m, address, 8) == Ok(Bytes(m, address, 8))
  {
    ChunkCount(address, 8);
    ReadIsBytes(m, address, 8);
  }

  /** `write_memory` succeeds when its words are mapped, and then memory is the old one with exactly the
      data stored: bytes after the data in the last word survive. */
  lemma {:induction false} WriteIsStored(m: Memory, address: int, data: seq<byte>)
    requires Mapped(m, address, RoundedUp(|data|))
    ensures WriteMemory(m, address, data) == Written(Ok(()), Stored(m, address, data))
    decreases |data|
  {
    if data == [] {
      assert Stored(m, address, data) == m;
    } else {
      PokeIsStored(m, address, data);
      var m' := PokeNext(m, address, data).value;
      WriteIsStored(m', address + 8, AfterWord(data));
    }
  }

  lemma PokeIsStored(m: Memory, address: int, data: seq<byte>)
    requires data != [] && Mapped(m, address, RoundedUp(|data|))
    ensures PokeNext(m, address, data).Ok?
    ensures var m' := PokeNext(m, address, data).value;
            && Mapped(m', address + 8, RoundedUp(|AfterWord(data)|))
            && Stored(m', address + 8, AfterWord(data)) == Stored(m, address, data)
  {
    if |data| >= 8 {
      StoredTwice(m, address, data[..8], data[8..]);
      assert data[..8] + data[8..] == data;
    } else {
      SmallRead(m, address);
      StoredTail(m, address, data, 8);
      StoredNothing(Stored(m, address, data), address + 8);
    }
  }

  lemma StoredNothing(m: Memory, address: int)
    ensures Stored(m, address, []) == m
  {
  }

  lemma RoundedRest(data: seq<byte>)
    requires data != []
    ensures RoundedUp(|data|) == 8 + RoundedUp(|AfterWord(data)|)
  {
  }

  /** It succeeds if and only if all of its words are mapped, the bytes after the data included. */
  lemma {:induction false} WriteSucceedsExactly(m: Memory, address: int, data: seq<byte>)
    ensures WriteMemory(m, address, data).result.Ok? <==> Mapped(m, address, RoundedUp(|data|))
    decreases |data|
  {
    if Mapped(m, address, RoundedUp(|data|)) {
      WriteIsStored(m, address, data);
    } else if PokeNext(m, address, data).Ok? {
      var m' := PokeNext(m, address, data).value;
      assert m'.Keys == m.Keys && Mapped(m, address, 8);
      WriteSucceedsExactly(m', address + 8, AfterWord(data));
      RoundedRest(data);
      MappedSplit(m, address, 8, RoundedUp(|AfterWord(data)|));
    }
  }

  /** Writing and reading back, for every length and alignment. */
  lemma WriteThenRead(m: Memory, address: int, data: seq<byte>)
    requires Mapped(m, address, RoundedUp(|data|)) && |ChunksOf(address, |data|)| <= IOV_MAX
    ensures var w := WriteMemory(m, address, data);
            && w.result.Ok? && ReadMemory(w.memory, address, |data|) == Ok(data)
            && w.memory.Keys == m.Keys
            && forall a :: a in m && !(address <= a < address + |data|) ==> w.memory[a] == m[a]
  {
    WriteIsStored(m, address, data);
    BytesStored(m, address, data);
    ReadIsBytes(Stored(m, address, data), address, |data|);
  }

  lemma BytesStored(m: Memory, address: int, data: seq<byte>)
    requires Mapped(m, address, |data|)
    ensures var m' := Stored(m, address, data);
            && m'.Keys == m.Keys && Mapped(m', address, |data|) && Bytes(m', address, |data|) == data
            && forall a :: a in m && !(address <= a < address + |data|) ==> m'[a] == m[a]
  {
  }
}
