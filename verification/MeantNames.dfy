/** The name that the bytes give an entry by the standard, whether or not the debugger can read the entry. */
module MeantNames {
  import opened Words
  import opened Cursors
  import opened Dies
  import opened DieAddresses
  import opened EntryNames

  const FORM_REF8 := 0x14
  const FORM_REF_UDATA := 0x15

  // ----- Entries with values of any form -----

  /** Over one value of any form of section 7.5.4 of DWARF 4. */
  function MeantSkip(data: seq<byte>, pos: nat, form: nat): Result<nat>
    decreases |data| - pos
  {
    match KindOf(form)
    case Rejected => if RejectedSize(form).Some? then Ok(pos + RejectedSize(form).value) else Err(UnknownForm)
    case Indirect =>
      var inner :- UlebAt(data, pos);
      MeantSkip(data, inner.next, inner.value)
    case _ => SkipFormAt(data, pos, form)
  }

  function MeantAttrs(data: seq<byte>, pos: nat, specs: seq<AttrSpec>): (r: Result<Skipped>)
    ensures r.Ok? ==> |r.value.attrs| == |specs|
    decreases specs
  {
    if specs == [] then Ok(Skipped([], pos))
    else
      var next :- MeantSkip(data, pos, specs[0].form);
      var rest :- MeantAttrs(data, next, specs[1..]);
      Ok(Skipped([pos] + rest.attrs, rest.next))
  }

  function MeantDieAt(u: Unit, pos: nat): (r: Result<Die>)
    ensures r.Ok? && r.value.Entry? ==> Parsed(u, r.value)
  {
    var code :- UlebAt(u.data, pos);
    if code.value == 0 then Ok(Null(code.next))
    else if code.value !in u.abbrevs then Err(UnknownAbbreviation)
    else
      var skipped :- MeantAttrs(u.data, code.next, u.abbrevs[code.value].specs);
      Ok(Entry(pos, code.value, skipped.attrs, skipped.next))
  }

  /** What the debugger steps over, it steps over rightly. */
  lemma {:induction false} SkipIsMeant(data: seq<byte>, pos: nat, form: nat)
    requires SkipFormAt(data, pos, form).Ok?
    ensures MeantSkip(data, pos, form) == SkipFormAt(data, pos, form)
    decreases |data| - pos
  {
    if KindOf(form).Indirect? {
      var inner := UlebAt(data, pos).value;
      SkipIsMeant(data, inner.next, inner.value);
    }
  }

  lemma {:induction false} AttrsAreMeant(data: seq<byte>, pos: nat, specs: seq<AttrSpec>)
    requires SkipAttrs(data, pos, specs).Ok?
    ensures MeantAttrs(data, pos, specs) == SkipAttrs(data, pos, specs)
    decreases specs
  {
    if specs != [] {
      SkipIsMeant(data, pos, specs[0].form);
      AttrsAreMeant(data, SkipFormAt(data, pos, specs[0].form).value, specs[1..]);
    }
  }

  lemma DieIsMeant(u: Unit, pos: nat)
    requires DieAt(u, pos).Ok?
    ensures MeantDieAt(u, pos) == DieAt(u, pos)
  {
    var code := UlebAt(u.data, pos).value;
    if code.value != 0 {
      AttrsAreMeant(u.data, code.next, u.abbrevs[code.value].specs);
    }
  }

  /** And every complete value is stepped over, the forms that the debugger rejects included. */
  lemma {:induction false} EncodingIsMeant(data: seq<byte>, pos: nat, form: nat, bs: seq<byte>)
    requires At(data, pos, bs) && IsEncoding(form, bs)
    ensures MeantSkip(data, pos, form) == Ok(pos + |bs|)
    decreases |bs|
  {
    if KindOf(form).Indirect? {
      LeadingUleb(data, pos, bs);
      var inner := UlebAt(bs, 0).value;
      EncodingIsMeant(data, pos + inner.next, inner.value, bs[inner.next..]);
      IndirectIsMeant(data, pos, form, pos + inner.next, inner.value);
    } else if !KindOf(form).Rejected? {
      SkipDirectForm(data, pos, form, bs);
    }
  }

  lemma IndirectIsMeant(data: seq<byte>, pos: nat, form: nat, next: nat, inner: nat)
    requires KindOf(form).Indirect? && UlebAt(data, pos) == Ok(Read(inner, next))
    ensures MeantSkip(data, pos, form) == MeantSkip(data, next, inner)
  {
  }

  lemma {:induction false} LaidAttrsAreMeant(data: seq<byte>, pos: nat, specs: seq<AttrSpec>, attrs: seq<seq<byte>>, places: seq<nat>, end: nat)
    requires AttrsLaid(data, pos, specs, attrs, places, end)
    ensures MeantAttrs(data, pos, specs) == Ok(Skipped(places, end))
    decreases specs
  {
    if specs != [] {
      EncodingIsMeant(data, pos, specs[0].form, attrs[0]);
      LaidAttrsAreMeant(data, pos + |attrs[0]|, specs[1..], attrs[1..], places[1..], end);
      assert [places[0]] + places[1..] == places;
    }
  }

  /** At the place of a laid-out entry that is the entry, with its attributes where they lie. */
  lemma LaidIsMeant(u: Unit, t: Tree)
    requires Laid(u, t)
    ensures MeantDieAt(u, t.entry.pos) == Ok(t.entry)
  {
    var e := t.entry;
    UlebRoundTrip(u.data, e.pos, e.code);
    LaidAttrsAreMeant(u.data, e.pos + |UlebEncode(e.code)|, u.abbrevs[e.code].specs, t.attrs, e.attrs, e.next);
    EntryIsMeant(u, e.pos, e.code, e.pos + |UlebEncode(e.code)|, e.attrs, e.next);
  }

  lemma EntryIsMeant(u: Unit, pos: nat, code: nat, next: nat, attrs: seq<nat>, end: nat)
    requires UlebAt(u.data, pos) == Ok(Read(code, next)) && code != 0 && code in u.abbrevs
    requires MeantAttrs(u.data, next, u.abbrevs[code].specs) == Ok(Skipped(attrs, end))
    ensures MeantDieAt(u, pos) == Ok(Entry(pos, code, attrs, end))
  {
  }

  // ----- Names -----

  function MeantText(u: Unit, strings: seq<byte>, form: nat, pos: nat): Result<seq<byte>>
    decreases |u.data| - pos
  {
    if KindOf(form).Indirect? then
      var inner :- UlebAt(u.data, pos);
      MeantText(u, strings, inner.value, inner.next)
    else StringAt(u, strings, form, pos)
  }

  function MeantRef(u: Unit, form: nat, pos: nat): Result<Ref>
    decreases |u.data| - pos
  {
    if KindOf(form).Indirect? then
      var inner :- UlebAt(u.data, pos);
      MeantRef(u, inner.value, inner.next)
    else if form == FORM_REF8 then Inside(IntAt(u.data, pos, 8))
    else if form == FORM_REF_UDATA then Inside(UlebAt(u.data, pos))
    else ReferenceAt(u, form, pos)
  }

  /** What an entry's own attributes say of its name: the name, or the entry whose name it has, or neither. */
  function MeantHop(units: seq<Unit>, strings: seq<byte>, p: Place): Hop {
    if p.unit >= |units| then Ends(Err(OutOfData))
    else
      match MeantDieAt(units[p.unit], p.pos)
      case Err(e) => Ends(Err(e))
      case Ok(Null(_)) => Ends(Err(OutOfData))
      case Ok(Entry(_, code, attrs, _)) => MeantBy(units, strings, p.unit, units[p.unit].abbrevs[code].specs, attrs)
  }

  function MeantBy(units: seq<Unit>, strings: seq<byte>, unit: nat, specs: seq<AttrSpec>, places: seq<nat>): Hop
    requires unit < |units| && |places| == |specs|
  {
    match Deciding(specs)
    case None => Ends(Ok(None))
    case Some(i) =>
      if specs[i].attr == AT_NAME then
        (match MeantText(units[unit], strings, specs[i].form, places[i])
         case Err(e) => Ends(Err(e))
         case Ok(text) => Ends(Ok(Some(text))))
      else
        match MeantRef(units[unit], specs[i].form, places[i])
        case Err(e) => Ends(Err(e))
        case Ok(ref) =>
          match PlaceOf(units, unit, ref)
          case Err(e) => Ends(Err(e))
          case Ok(place) => Goes(place)
  }

  function MeantCalls(units: seq<Unit>, strings: seq<byte>): Calls {
    (p: Place) => MeantHop(units, strings, p)
  }

  ghost predicate HasName(calls: Calls, p: Place, name: seq<byte>) {
    exists k: nat :: EndsAt(calls, p, k, Ok(Some(name)))
  }

  ghost function NameBy(calls: Calls, p: Place): Option<seq<byte>> {
    if exists name :: HasName(calls, p, name) then
      var name :| HasName(calls, p, name);
      Some(name)
    else None
  }

  lemma NameIsUnique(calls: Calls, p: Place, k: nat, name: Option<seq<byte>>)
    requires EndsAt(calls, p, k, Ok(name))
    ensures NameBy(calls, p) == name
  {
    forall j: nat, other | EndsAt(calls, p, j, other)
      ensures other == Ok(name)
    {
      EndsOnce(calls, p, k, Ok(name), j, other);
    }
    if name.Some? {
      assert HasName(calls, p, name.value);
    }
  }

  /** The name of the entry at a place, its own or one that its references lead to. */
  ghost function NameOf(units: seq<Unit>, strings: seq<byte>, p: Place): Option<seq<byte>> {
    NameBy(MeantCalls(units, strings), p)
  }

  // ----- What the debugger answers -----

  lemma TextIsMeant(u: Unit, strings: seq<byte>, form: nat, pos: nat)
    requires StringAt(u, strings, form, pos).Ok?
    ensures MeantText(u, strings, form, pos) == StringAt(u, strings, form, pos)
  {
  }

  lemma RefIsMeant(u: Unit, form: nat, pos: nat)
    requires ReferenceAt(u, form, pos).Ok? && !KindOf(form).Rejected?
    ensures MeantRef(u, form, pos) == ReferenceAt(u, form, pos)
  {
  }

  /** Unless it throws, a call does what the attributes mean. */
  lemma HopIsMeant(units: seq<Unit>, strings: seq<byte>, p: Place)
    requires var hop := HopAt(units, strings, p); hop.Ends? ==> hop.result.Ok?
    ensures MeantHop(units, strings, p) == HopAt(units, strings, p)
  {
    var u := units[p.unit];
    DieIsMeant(u, p.pos);
    var d := DieAt(u, p.pos).value;
    var specs := u.abbrevs[d.code].specs;
    var i := Deciding(specs);
    if i.Some? {
      SkippedForms(u.data, UlebAt(u.data, p.pos).value.next, specs, i.value);
      if specs[i.value].attr == AT_NAME {
        TextIsMeant(u, strings, specs[i.value].form, d.attrs[i.value]);
      } else {
        RefIsMeant(u, specs[i.value].form, d.attrs[i.value]);
      }
    }
  }

  lemma {:induction false} VisitedIsMeant(calls: Calls, meant: Calls, p: Place, k: nat)
    requires Visited(calls, p, k).Some?
    requires forall q :: calls(q).Goes? ==> meant(q) == calls(q)
    ensures Visited(meant, p, k) == Visited(calls, p, k)
  {
    if k > 0 {
      VisitedIsMeant(calls, meant, p, k - 1);
    }
  }

  /** When `name` returns and does not throw, its answer is the name of the entry. */
  lemma AnswerIsName(units: seq<Unit>, strings: seq<byte>, p: Place, k: nat, name: Option<seq<byte>>)
    requires EndsAt(CallsOf(units, strings), p, k, Ok(name))
    ensures NameOf(units, strings, p) == name
  {
    var calls, meant := CallsOf(units, strings), MeantCalls(units, strings);
    forall q | calls(q).Goes?
      ensures meant(q) == calls(q)
    {
      HopIsMeant(units, strings, q);
    }
    VisitedIsMeant(calls, meant, p, k);
    HopIsMeant(units, strings, Visited(calls, p, k).value);
    NameIsUnique(meant, p, k, name);
  }

  // ----- The name of a laid-out entry -----

  /** The text that the bytes of an attribute hold, or lead to. */
  predicate IsText(strings: seq<byte>, form: nat, bs: seq<byte>, text: seq<byte>) {
    || (form == FORM_STRING && bs == text + [0])
    || (form == FORM_STRP && |bs| == 4 && At(strings, LittleEndian(bs), text + [0]))
  }

  lemma {:induction false} TextIsRead(data: seq<byte>, pos: nat, text: seq<byte>)
    requires At(data, pos, text + [0]) && 0 !in text
    ensures TextAt(data, pos) == Ok(text)
    decreases text
  {
    AtIndex(data, pos, text + [0], 0);
    if text != [] {
      assert text + [0] == [text[0]] + (text[1..] + [0]);
      AtSplit(data, pos, [text[0]], text[1..] + [0]);
      TextIsRead(data, pos + 1, text[1..]);
      assert [text[0]] + text[1..] == text;
    }
  }

  lemma {:induction false} AttrLies(data: seq<byte>, pos: nat, specs: seq<AttrSpec>, attrs: seq<seq<byte>>, places: seq<nat>, end: nat, i: nat)
    requires AttrsLaid(data, pos, specs, attrs, places, end) && i < |specs|
    ensures |attrs| == |places| == |specs| && At(data, places[i], attrs[i]) && IsEncoding(specs[i].form, attrs[i])
    decreases specs
  {
    if i > 0 {
      AttrLies(data, pos + |attrs[0]|, specs[1..], attrs[1..], places[1..], end, i - 1);
    } else {
      AttrsCount(data, pos, specs, attrs, places, end);
    }
  }

  /** A laid-out entry is asked by its own attribute bytes. */
  lemma LaidHop(units: seq<Unit>, strings: seq<byte>, unit: nat, t: Tree, i: nat)
    requires unit < |units| && Laid(units[unit], t) && i < |units[unit].abbrevs[t.entry.code].specs|
    ensures var u, specs := units[unit], units[unit].abbrevs[t.entry.code].specs;
            && |t.attrs| == |t.entry.attrs| == |specs| && At(u.data, t.entry.attrs[i], t.attrs[i]) && IsEncoding(specs[i].form, t.attrs[i])
            && MeantHop(units, strings, Place(unit, t.entry.pos)) == MeantBy(units, strings, unit, specs, t.entry.attrs)
  {
    var u := units[unit];
    LaidIsMeant(u, t);
    AttrLies(u.data, t.entry.pos + |UlebEncode(t.entry.code)|, u.abbrevs[t.entry.code].specs, t.attrs, t.entry.attrs, t.entry.next, i);
  }

  lemma TextOfBytes(u: Unit, strings: seq<byte>, form: nat, pos: nat, bs: seq<byte>, text: seq<byte>)
    requires At(u.data, pos, bs) && 0 !in text && IsText(strings, form, bs, text)
    ensures MeantText(u, strings, form, pos) == Ok(text)
  {
    if form == FORM_STRING {
      TextIsRead(u.data, pos, text);
    } else {
      TextIsRead(strings, LittleEndian(bs), text);
    }
  }

  /** The name of a laid-out entry is the text of its name attribute, whatever forms its other attributes have. */
  lemma OwnNameIsMeant(units: seq<Unit>, strings: seq<byte>, unit: nat, t: Tree, i: nat, text: seq<byte>)
    requires unit < |units| && Laid(units[unit], t) && FindAttr(units[unit].abbrevs[t.entry.code].specs, AT_NAME) == Some(i)
    requires i < |t.attrs| && 0 !in text && IsText(strings, units[unit].abbrevs[t.entry.code].specs[i].form, t.attrs[i], text)
    ensures NameOf(units, strings, Place(unit, t.entry.pos)) == Some(text)
  {
    var u, p := units[unit], Place(unit, t.entry.pos);
    LaidHop(units, strings, unit, t, i);
    TextOfBytes(u, strings, u.abbrevs[t.entry.code].specs[i].form, t.entry.attrs[i], t.attrs[i], text);
    assert EndsAt(MeantCalls(units, strings), p, 0, Ok(Some(text)));
    NameIsUnique(MeantCalls(units, strings), p, 0, Some(text));
  }

  /** The offset lies in the unit itself, or in the first one that holds it. */
  predicate IsOffset(units: seq<Unit>, unit: nat, offset: nat, to: Place)
    requires unit < |units|
  {
    && to.unit < |units| && offset == units[to.unit].start + to.pos && to.pos < |units[to.unit].data|
    && (to.unit == unit || (UnitOf(units, offset, 0) == Ok(to.unit) && !(units[unit].start <= offset < units[unit].start + |units[unit].data|)))
  }

  /** The bytes of a reference attribute name this place. */
  predicate IsReference(units: seq<Unit>, unit: nat, form: nat, bs: seq<byte>, to: Place)
    requires unit < |units|
  {
    || (form in {0x11, 0x12, 0x13, FORM_REF8} && to == Place(unit, LittleEndian(bs)))
    || (form == FORM_REF_UDATA && to.unit == unit && to.pos < TWO_64 && bs == UlebEncode(to.pos))
    || (form == 0x10 && IsOffset(units, unit, LittleEndian(bs), to))
  }

  lemma ReferenceIsRead(units: seq<Unit>, unit: nat, form: nat, pos: nat, bs: seq<byte>, to: Place)
    requires unit < |units| && At(units[unit].data, pos, bs) && IsEncoding(form, bs) && IsReference(units, unit, form, bs, to)
    ensures var ref := MeantRef(units[unit], form, pos); ref.Ok? && PlaceOf(units, unit, ref.value) == Ok(to)
  {
    if form == FORM_REF_UDATA {
      UlebRoundTrip(units[unit].data, pos, to.pos);
    }
  }

  lemma {:induction false} VisitedOnward(calls: Calls, p: Place, q: Place, k: nat)
    requires calls(p) == Goes(q)
    ensures Visited(calls, p, k + 1) == Visited(calls, q, k)
  {
    if k > 0 {
      VisitedOnward(calls, p, q, k - 1);
    } else {
      assert Visited(calls, p, 0) == Some(p);
    }
  }

  lemma NameIsPassedOn(calls: Calls, p: Place, q: Place)
    requires calls(p) == Goes(q)
    ensures NameBy(calls, p) == NameBy(calls, q)
  {
    forall name
      ensures HasName(calls, p, name) <==> HasName(calls, q, name)
    {
      if HasName(calls, q, name) {
        var k: nat :| EndsAt(calls, q, k, Ok(Some(name)));
        VisitedOnward(calls, p, q, k);
        assert EndsAt(calls, p, k + 1, Ok(Some(name)));
      }
      if HasName(calls, p, name) {
        var k: nat :| EndsAt(calls, p, k, Ok(Some(name)));
        assert k > 0;
        VisitedOnward(calls, p, q, k - 1);
        assert EndsAt(calls, q, k - 1, Ok(Some(name)));
      }
    }
    if name :| HasName(calls, q, name) {
      SameName(calls, p, q, name);
    }
  }

  lemma SameName(calls: Calls, p: Place, q: Place, name: seq<byte>)
    requires HasName(calls, p, name) && HasName(calls, q, name)
    ensures NameBy(calls, p) == Some(name) == NameBy(calls, q)
  {
    var j: nat :| EndsAt(calls, p, j, Ok(Some(name)));
    var k: nat :| EndsAt(calls, q, k, Ok(Some(name)));
    NameIsUnique(calls, p, j, Some(name));
    NameIsUnique(calls, q, k, Some(name));
  }

  /** An entry without a name of its own has the name of the one that it specifies, or originates from. */
  lemma ReferenceIsMeant(units: seq<Unit>, strings: seq<byte>, unit: nat, t: Tree, i: nat, to: Place)
    requires unit < |units| && Laid(units[unit], t) && i < |units[unit].abbrevs[t.entry.code].specs|
    requires var specs := units[unit].abbrevs[t.entry.code].specs;
             && FindAttr(specs, 0x03) == None
             && (FindAttr(specs, 0x47) == Some(i) || (FindAttr(specs, 0x47) == None && FindAttr(specs, 0x31) == Some(i)))
    requires var spec := units[unit].abbrevs[t.entry.code].specs[i];
             i < |t.attrs| && IsReference(units, unit, spec.form, t.attrs[i], to)
    ensures NameOf(units, strings, Place(unit, t.entry.pos)) == NameOf(units, strings, to)
  {
    var p := Place(unit, t.entry.pos);
    LaidHop(units, strings, unit, t, i);
    ReferenceIsRead(units, unit, units[unit].abbrevs[t.entry.code].specs[i].form, t.entry.attrs[i], t.attrs[i], to);
    assert MeantCalls(units, strings)(p) == Goes(to);
    NameIsPassedOn(MeantCalls(units, strings), p, to);
  }
}
