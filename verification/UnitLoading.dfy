/** Loading a file's debug information, as far as its compile units need their root entries for it, and what that
    leaves of the forms of `DW_AT_low_pc`. */
module UnitLoading {
  import opened Words
  import opened Cursors
  import opened Dies
  import opened DieAddresses
  import opened FunctionIndex

  const AT_STMT_LIST := 0x10

  /** What the constructor of a unit reads of its root entry: the offset of its line table, if it has one. */
  function LineOffset(u: Unit, root: nat): Result<Option<u64>> {
    var d :- DieAt(u, root);
    if d.Null? then Err(OutOfData)
    else if AttrOf(u, d, AT_STMT_LIST).None? then Ok(None)
    else
      var offset :- AsSectionOffset(u, AttrOf(u, d, AT_STMT_LIST).value);
      Ok(Some(offset))
  }

  /** It reads that if and only if the root entry can be parsed, and the attribute (0x10), if there is one, has the form
      `sec_offset` (0x17) and its four bytes in the unit. */
  lemma LineOffsetExactly(u: Unit, root: nat)
    ensures LineOffset(u, root).Ok? <==>
              && DieAt(u, root).Ok? && DieAt(u, root).value.Entry?
              && var a := AttrOf(u, DieAt(u, root).value, 0x10);
                 a.Some? ==> a.value.form == 0x17 && a.value.pos + 4 <= |u.data|
  {
  }

  method ReadLineOffset(u: Unit, root: nat) returns (r: Result<Option<u64>>)
    ensures r == LineOffset(u, root)
  {
    var d :- ParseDie(u, root);
    if d.Null? {
      return Err(OutOfData);
    }
    var a := AttrOf(u, d, AT_STMT_LIST);
    if a.None? {
      return Ok(None);
    }
    var offset :- AsSectionOffset(u, a.value);
    r := Ok(Some(offset));
  }

  /** The offsets of the first `n` units, or the error of the first unit whose constructor throws. */
  predicate AreOffsets(units: seq<Unit>, roots: seq<nat>, n: nat, offsets: seq<Option<u64>>)
    requires n <= |units| == |roots|
  {
    |offsets| == n && forall i :: 0 <= i < n ==> LineOffset(units[i], roots[i]) == Ok(offsets[i])
  }

  predicate FailsAt(units: seq<Unit>, roots: seq<nat>, i: nat, e: Error)
    requires i < |units| == |roots|
  {
    LineOffset(units[i], roots[i]) == Err(e) && forall j :: 0 <= j < i ==> LineOffset(units[j], roots[j]).Ok?
  }

  /** The outcome of constructing the units one after another. */
  predicate IsLoad(units: seq<Unit>, roots: seq<nat>, r: Result<seq<Option<u64>>>)
    requires |units| == |roots|
  {
    match r
    case Ok(offsets) => AreOffsets(units, roots, |units|, offsets)
    case Err(e) => exists i :: 0 <= i < |units| && FailsAt(units, roots, i, e)
  }

  /** `parse_compile_units`, on units whose headers have been read. */
  method LoadUnits(units: seq<Unit>, roots: seq<nat>) returns (r: Result<seq<Option<u64>>>)
    requires |units| == |roots|
    ensures IsLoad(units, roots, r)
  {
    var offsets := [];
    for i := 0 to |units|
      invariant AreOffsets(units, roots, i, offsets)
    {
      var offset := ReadLineOffset(units[i], roots[i]);
      if offset.Err? {
        assert FailsAt(units, roots, i, offset.error);
        return Err(offset.error);
      }
      offsets := offsets + [offset.value];
    }
    r := Ok(offsets);
  }

  /** The units load if and only if every root entry can be parsed and holds no line table offset that cannot be
      read. */
  lemma LoadsExactly(units: seq<Unit>, roots: seq<nat>, r: Result<seq<Option<u64>>>)
    requires |units| == |roots| && IsLoad(units, roots, r)
    ensures r.Ok? <==> forall i :: 0 <= i < |units| ==> LineOffset(units[i], roots[i]).Ok?
    ensures r.Ok? ==> forall i :: 0 <= i < |units| ==> DieAt(units[i], roots[i]).Ok? && DieAt(units[i], roots[i]).value.Entry?
  {
    if r.Err? {
      var i :| 0 <= i < |units| && FailsAt(units, roots, i, r.error);
      assert LineOffset(units[i], roots[i]).Err?;
    } else {
      assert AreOffsets(units, roots, |units|, r.value);
      forall i | 0 <= i < |units|
        ensures DieAt(units[i], roots[i]).Ok? && DieAt(units[i], roots[i]).value.Entry?
      {
        assert LineOffset(units[i], roots[i]).Ok?;
      }
    }
  }

  // ----- Addresses -----

  predicate HasForm(a: Abbrev, form: nat) {
    exists k :: 0 <= k < |a.specs| && a.specs[k].form == form
  }

  lemma {:induction false} RejectedAt(specs: seq<AttrSpec>, attrs: seq<seq<byte>>, k: nat)
    requires k < |specs| == |attrs| && KindOf(specs[k].form).Rejected?
    ensures SomeRejected(specs, attrs)
    decreases k
  {
    if k > 0 {
      RejectedAt(specs[1..], attrs[1..], k - 1);
    }
  }

  /** A file with a unit whose root entry has an address, laid out as the standard says, does not load. */
  lemma AddressedRootFails(units: seq<Unit>, roots: seq<nat>, r: Result<seq<Option<u64>>>, i: nat, t: Tree)
    requires |units| == |roots| && IsLoad(units, roots, r) && i < |units|
    requires Laid(units[i], t) && t.entry.pos == roots[i] && HasForm(units[i].abbrevs[t.entry.code], FORM_ADDR)
    ensures r.Err?
  {
    var u := units[i];
    var specs := u.abbrevs[t.entry.code].specs;
    var k :| 0 <= k < |specs| && specs[k].form == FORM_ADDR;
    AttrsCount(u.data, t.entry.pos + |UlebEncode(t.entry.code)|, specs, t.attrs, t.entry.attrs, t.entry.next);
    RejectedAt(specs, t.attrs, k);
    ParseLaid(u, t);
    LoadsExactly(units, roots, r);
  }

  /** The entry here can be parsed, and has no attribute with the form of an address. */
  predicate ParsedWithoutAddress(u: Unit, pos: nat) {
    DieAt(u, pos).Ok? && DieAt(u, pos).value.Entry? && !HasForm(u.abbrevs[DieAt(u, pos).value.code], FORM_ADDR)
  }

  lemma ParsedHasNoAddress(u: Unit, pos: nat)
    requires DieAt(u, pos).Ok? && DieAt(u, pos).value.Entry?
    ensures ParsedWithoutAddress(u, pos)
  {
    var specs := u.abbrevs[DieAt(u, pos).value.code].specs;
    if k :| 0 <= k < |specs| && specs[k].form == FORM_ADDR {
      SkippedForms(u.data, UlebAt(u.data, pos).value.next, specs, k);
    }
  }

  /** So no root entry of a file that loads has an address. */
  lemma LoadedRootsHaveNoAddress(units: seq<Unit>, roots: seq<nat>, r: Result<seq<Option<u64>>>)
    requires |units| == |roots| && IsLoad(units, roots, r) && r.Ok?
    ensures forall i :: 0 <= i < |units| ==> ParsedWithoutAddress(units[i], roots[i])
  {
    LoadsExactly(units, roots, r);
    forall i | 0 <= i < |units|
      ensures ParsedWithoutAddress(units[i], roots[i])
    {
      ParsedHasNoAddress(units[i], roots[i]);
    }
  }

  /** Nor has any function of the index, whatever the outcome of building it. */
  lemma IndexedHasNoAddress(units: seq<Unit>, roots: seq<nat>, names: Names, trees: seq<Tree>, e: IndexEntry)
    requires |units| == |roots| == |trees| && AllLaid(units, roots, trees, |units|)
    requires e in BuildAll(units, names, trees, |units|).entries
    ensures e.unit < |units| && ParsedWithoutAddress(units[e.unit], e.pos)
  {
    var t := EntryHasTree(units, roots, names, trees, |units|, e);
    ParseLaid(units[e.unit], t);
    ParsedHasNoAddress(units[e.unit], e.pos);
  }
}
