/** The addresses of an entry (section 2.17 of DWARF 4): `contains_address` and the attributes it reads. */
module DieAddresses {
  import opened Words
  import opened Cursors
  import opened Dies
  import RangeLists

  const AT_LOW_PC := 0x11
  const AT_HIGH_PC := 0x12
  const AT_RANGES := 0x55

  const FORM_ADDR := 0x01
  const FORM_SEC_OFFSET := 0x17

  /** What a query about an address depends on besides the entry: where the unit's root entry is, the
      section `.debug_ranges` and the address. */
  datatype Query = Query(root: nat, ranges: seq<byte>, address: u64)

  datatype Attr = Attr(form: nat, pos: nat)

  /** The entry has the positions of all attributes of its abbreviation. */
  predicate Parsed(u: Unit, d: Die) {
    d.Entry? && d.code in u.abbrevs && |d.attrs| == |u.abbrevs[d.code].specs|
  }

  function AttrOf(u: Unit, d: Die, attr: nat): Option<Attr>
    requires Parsed(u, d)
  {
    var specs := u.abbrevs[d.code].specs;
    match FindAttr(specs, attr)
    case None => None
    case Some(i) => Some(Attr(specs[i].form, d.attrs[i]))
  }

  function AsAddress(u: Unit, a: Attr): Result<u64> {
    if a.form != FORM_ADDR then Err(WrongForm) else Word(IntAt(u.data, a.pos, 8))
  }

  function AsSectionOffset(u: Unit, a: Attr): Result<u64> {
    if a.form != FORM_SEC_OFFSET then Err(WrongForm) else Word(IntAt(u.data, a.pos, 4))
  }

  function AsInt(u: Unit, a: Attr): Result<u64> {
    match a.form
    case 0x0b => Word(IntAt(u.data, a.pos, 1))
    case 0x05 => Word(IntAt(u.data, a.pos, 2))
    case 0x06 => Word(IntAt(u.data, a.pos, 4))
    case 0x07 => Word(IntAt(u.data, a.pos, 8))
    case 0x0f => Word(UlebAt(u.data, a.pos))
    case _ => Err(WrongForm)
  }

  function Word(read: Result<Read<nat>>): Result<u64> {
    var r :- read;
    Ok(Wrap64(r.value))
  }

  /** The base address of the unit's range lists; the root entry is parsed again. */
  function BaseAddress(u: Unit, q: Query): Result<u64> {
    var root :- DieAt(u, q.root);
    if root.Null? then Err(UnknownAbbreviation)
    else
      match AttrOf(u, root, AT_LOW_PC)
      case None => Ok(0)
      case Some(a) => AsAddress(u, a)
  }

  function InRanges(u: Unit, q: Query, a: Attr): Result<bool> {
    var offset :- AsSectionOffset(u, a);
    var base :- BaseAddress(u, q);
    if offset > |q.ranges| then Err(OutOfData) else RangeLists.Search(q.ranges[offset..], 0, base, q.address)
  }

  /** `low_pc`: the start of the first range, for an entry with ranges, and otherwise the low address. */
  function LowPc(u: Unit, q: Query, d: Die): Result<u64>
    requires Parsed(u, d)
  {
    var ranges, low := AttrOf(u, d, AT_RANGES), AttrOf(u, d, AT_LOW_PC);
    if ranges.Some? then
      var offset :- AsSectionOffset(u, ranges.value);
      var base :- BaseAddress(u, q);
      if offset > |q.ranges| then Err(OutOfData) else FirstLow(q.ranges[offset..], base)
    else if low.Some? then AsAddress(u, low.value)
    else Err(NotFound)
  }

  /** A list that ends at once has no first range. */
  function FirstLow(list: seq<byte>, base: u64): Result<u64> {
    var step :- RangeLists.StepAt(list, 0, base);
    if step.Item? then Ok(step.range.low) else Err(NotFound)
  }

  /** `high_pc` of an entry without ranges. */
  function HighPc(u: Unit, d: Die, low: u64): Result<u64>
    requires Parsed(u, d)
  {
    match AttrOf(u, d, AT_HIGH_PC)
    case None => Err(NotFound)
    case Some(a) =>
      if a.form == FORM_ADDR then AsAddress(u, a)
      else
        var size :- AsInt(u, a);
        Ok(Wrap64(low + size))
  }

  /** `contains_address`. */
  function ContainsAt(u: Unit, q: Query, d: Die): Result<bool>
    requires Parsed(u, d)
  {
    var ranges, low := AttrOf(u, d, AT_RANGES), AttrOf(u, d, AT_LOW_PC);
    if ranges.Some? then InRanges(u, q, ranges.value)
    else if low.None? then Ok(false)
    else
      var from :- AsAddress(u, low.value);
      if from > q.address then Ok(false)
      else
        var to :- HighPc(u, d, from);
        Ok(to > q.address)
  }

  /** Skipping attributes succeeds only where no form is a rejected one. */
  lemma {:induction false} SkippedForms(data: seq<byte>, pos: nat, specs: seq<AttrSpec>, i: nat)
    requires SkipAttrs(data, pos, specs).Ok? && i < |specs|
    ensures !KindOf(specs[i].form).Rejected?
    decreases specs
  {
    if i > 0 {
      SkippedForms(data, SkipFormAt(data, pos, specs[0].form).value, specs[1..], i - 1);
    }
  }

  /** So an attribute of an entry that the reader has parsed is never an address. */
  lemma NoAddresses(u: Unit, pos: nat, attr: nat)
    requires DieAt(u, pos).Ok? && DieAt(u, pos).value.Entry?
    ensures var a := AttrOf(u, DieAt(u, pos).value, attr);
            a.Some? ==> AsAddress(u, a.value) == Err(WrongForm)
  {
    var d := DieAt(u, pos).value;
    var specs := u.abbrevs[d.code].specs;
    var i := FindAttr(specs, attr);
    if i.Some? {
      SkippedForms(u.data, UlebAt(u.data, pos).value.next, specs, i.value);
    }
  }

  /** What `contains_address` comes to for every entry that has been parsed: it throws for an entry with a low
      address and no ranges, and for ranges that are no section offset or whose unit's root has a low address
      itself; otherwise it searches the range list from base zero, or says no for an entry with neither. */
  lemma ContainsExactly(u: Unit, q: Query, pos: nat)
    requires DieAt(u, pos).Ok? && DieAt(u, pos).value.Entry?
    requires DieAt(u, q.root).Ok? && DieAt(u, q.root).value.Entry?
    ensures var d, root := DieAt(u, pos).value, DieAt(u, q.root).value;
            var ranges, low := AttrOf(u, d, AT_RANGES), AttrOf(u, d, AT_LOW_PC);
            && (ranges.None? ==> ContainsAt(u, q, d) == if low.Some? then Err(WrongForm) else Ok(false))
            && (ranges.Some? && (ranges.value.form != FORM_SEC_OFFSET || AttrOf(u, root, AT_LOW_PC).Some?) ==> ContainsAt(u, q, d).Err?)
            && (ranges.Some? && ranges.value.form == FORM_SEC_OFFSET && AttrOf(u, root, AT_LOW_PC).None? ==>
                  ContainsAt(u, q, d) == FromZero(q, AsSectionOffset(u, ranges.value)))
  {
    NoAddresses(u, pos, AT_LOW_PC);
    NoAddresses(u, q.root, AT_LOW_PC);
  }

  function FromZero(q: Query, offset: Result<u64>): Result<bool> {
    var from :- offset;
    if from > |q.ranges| then Err(OutOfData) else RangeLists.Search(q.ranges[from..], 0, 0, q.address)
  }

  /** `low_pc` throws for every entry that has been parsed and has no ranges. */
  lemma LowPcThrows(u: Unit, q: Query, pos: nat)
    requires DieAt(u, pos).Ok? && DieAt(u, pos).value.Entry? && AttrOf(u, DieAt(u, pos).value, AT_RANGES).None?
    ensures LowPc(u, q, DieAt(u, pos).value).Err?
  {
    NoAddresses(u, pos, AT_LOW_PC);
  }

  // ----- Entries with ranges -----

  /** The entry has ranges, these, and the unit's root has no low address. */
  ghost predicate HasRanges(u: Unit, q: Query, pos: nat, es: seq<RangeLists.Entry>) {
    && DieAt(u, pos).Ok? && DieAt(u, pos).value.Entry? && DieAt(u, q.root).Ok? && DieAt(u, q.root).value.Entry?
    && AttrOf(u, DieAt(u, q.root).value, 0x11).None?
    && IsRangeList(u, q, AttrOf(u, DieAt(u, pos).value, 0x55), es)
  }

  /** The attribute has the form `sec_offset` (0x17), and its four bytes are the offset of this list in `.debug_ranges`. */
  ghost predicate IsRangeList(u: Unit, q: Query, a: Option<Attr>, es: seq<RangeLists.Entry>) {
    && a.Some? && a.value.form == 0x17 && a.value.pos + 4 <= |u.data| && OffsetIn(u, a.value) <= |q.ranges|
    && At(q.ranges[OffsetIn(u, a.value)..], 0, RangeLists.Encode(es))
    && forall e :: e in es ==> RangeLists.Proper(e)
  }

  function OffsetIn(u: Unit, a: Attr): nat
    requires a.pos + 4 <= |u.data|
  {
    LittleEndian(u.data[a.pos..a.pos + 4])
  }

  lemma OffsetIsRead(u: Unit, a: Attr)
    requires a.form == 0x17 && a.pos + 4 <= |u.data|
    ensures AsSectionOffset(u, a) == Ok(OffsetIn(u, a))
  {
    LittleEndianBound(u.data[a.pos..a.pos + 4]);
    Pow256Values();
  }

  /** The attribute of that number is the first one with it: its form is in the abbreviation, its bytes at its place. */
  lemma AttrOfExactly(u: Unit, d: Die, attr: nat)
    requires Parsed(u, d)
    ensures var specs, a := u.abbrevs[d.code].specs, AttrOf(u, d, attr);
            && (a.None? <==> forall i :: 0 <= i < |specs| ==> specs[i].attr != attr)
            && forall i :: 0 <= i < |specs| && specs[i].attr == attr && (forall j :: 0 <= j < i ==> specs[j].attr != attr) ==>
                 a == Some(Attr(specs[i].form, d.attrs[i]))
  {
    FirstAttr(u.abbrevs[d.code].specs, attr);
  }

  lemma {:induction false} FirstAttr(specs: seq<AttrSpec>, attr: nat)
    ensures FindAttr(specs, attr).Some? ==> forall j :: 0 <= j < FindAttr(specs, attr).value ==> specs[j].attr != attr
    decreases specs
  {
    if specs != [] {
      FirstAttr(specs[1..], attr);
    }
  }

  /** It contains an address if and only if one of them covers it, from base zero. */
  lemma ContainsByRanges(u: Unit, q: Query, pos: nat, es: seq<RangeLists.Entry>)
    requires HasRanges(u, q, pos, es)
    ensures ContainsAt(u, q, DieAt(u, pos).value) == Ok(exists i :: 0 <= i < |es| && RangeLists.Covers(es, i, 0, q.address))
  {
    var a := AttrOf(u, DieAt(u, pos).value, 0x55).value;
    OffsetIsRead(u, a);
    RangeLists.ContainsIsCovers(q.ranges[OffsetIn(u, a)..], es, 0, q.address);
  }

  lemma FirstLowIs(list: seq<byte>, base: u64, es: seq<RangeLists.Entry>, j: nat)
    requires At(list, 0, RangeLists.Encode(es)) && RangeLists.IsFirstPair(es, j)
    ensures FirstLow(list, base) == Ok((RangeLists.BaseBefore(es, j, base) + es[j].low) % 0x1_0000_0000_0000_0000)
  {
    RangeLists.FirstPair(list, 0, es, base, j);
  }

  lemma LowPcIsFirst(u: Unit, q: Query, pos: nat, es: seq<RangeLists.Entry>, list: seq<byte>, base: u64)
    requires HasRanges(u, q, pos, es) && base == 0
    requires list == q.ranges[OffsetIn(u, AttrOf(u, DieAt(u, pos).value, 0x55).value)..]
    ensures LowPc(u, q, DieAt(u, pos).value) == FirstLow(list, base) && At(list, 0, RangeLists.Encode(es))
  {
    OffsetIsRead(u, AttrOf(u, DieAt(u, pos).value, 0x55).value);
  }

  /** And it starts where the first pair starts, from the base of such a unit, zero. */
  lemma StartsWithFirstRange(u: Unit, q: Query, pos: nat, es: seq<RangeLists.Entry>, j: nat, base: u64)
    requires HasRanges(u, q, pos, es) && RangeLists.IsFirstPair(es, j) && base == 0
    ensures LowPc(u, q, DieAt(u, pos).value) == Ok((RangeLists.BaseBefore(es, j, base) + es[j].low) % 0x1_0000_0000_0000_0000)
  {
    var offset := OffsetIn(u, AttrOf(u, DieAt(u, pos).value, 0x55).value);
    LowPcIsFirst(u, q, pos, es, q.ranges[offset..], base);
    FirstLowIs(q.ranges[offset..], base, es, j);
  }
}
