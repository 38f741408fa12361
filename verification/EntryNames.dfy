/** The name of an entry, which its declaration or its abstract origin may hold. */
module EntryNames {
  import opened Words
  import opened Cursors
  import opened Dies

  const AT_NAME := 0x03
  const AT_ABSTRACT_ORIGIN := 0x31
  const AT_SPECIFICATION := 0x47
  const FORM_STRING := 0x08
  const FORM_STRP := 0x0e

  datatype Place = Place(unit: nat, pos: nat)

  /** What one call of `name` does at an entry: it returns or throws, or it calls itself at another entry. */
  datatype Hop = Ends(result: Result<Option<seq<byte>>>) | Goes(place: Place)

  // ----- One call -----

  /** `cursor::string`, without the zero byte. */
  function TextAt(data: seq<byte>, pos: nat): Result<seq<byte>>
    decreases |data| - pos
  {
    if pos >= |data| then Err(OutOfData)
    else if data[pos] == 0 then Ok([])
    else
      var rest :- TextAt(data, pos + 1);
      Ok([data[pos]] + rest)
  }

  /** `as_string`. */
  function StringAt(u: Unit, strings: seq<byte>, form: nat, pos: nat): Result<seq<byte>> {
    if form == FORM_STRING then TextAt(u.data, pos)
    else if form == FORM_STRP then
      var offset :- IntAt(u.data, pos, 4);
      TextAt(strings, offset.value)
    else Err(WrongForm)
  }

  /** The first unit from `k` on whose bytes hold this offset. */
  function UnitOf(units: seq<Unit>, offset: nat, k: nat): (r: Result<nat>)
    requires k <= |units|
    ensures r.Ok? ==> r.value < |units| && units[r.value].start <= offset < units[r.value].start + |units[r.value].data|
    decreases |units| - k
  {
    if k == |units| then Err(OutOfData)
    else if units[k].start <= offset < units[k].start + |units[k].data| then Ok(k)
    else UnitOf(units, offset, k + 1)
  }

  function PlaceOf(units: seq<Unit>, unit: nat, ref: Ref): Result<Place> {
    match ref
    case Here(pos) => Ok(Place(unit, pos))
    case Elsewhere(offset) =>
      var other :- UnitOf(units, offset, 0);
      Ok(Place(other, offset - units[other].start))
  }

  function HopBy(units: seq<Unit>, p: Place, form: nat, pos: nat): Hop
    requires p.unit < |units|
  {
    match ReferenceAt(units[p.unit], form, pos)
    case Err(e) => Ends(Err(e))
    case Ok(ref) =>
      match PlaceOf(units, p.unit, ref)
      case Err(e) => Ends(Err(e))
      case Ok(place) => Goes(place)
  }

  /** The attribute that a call goes by. */
  function Deciding(specs: seq<AttrSpec>): Option<nat> {
    if FindAttr(specs, AT_NAME).Some? then FindAttr(specs, AT_NAME)
    else if FindAttr(specs, AT_SPECIFICATION).Some? then FindAttr(specs, AT_SPECIFICATION)
    else FindAttr(specs, AT_ABSTRACT_ORIGIN)
  }

  /** The entry is parsed and asked. A null entry has no attributes to look through. */
  function HopAt(units: seq<Unit>, strings: seq<byte>, p: Place): Hop {
    if p.unit >= |units| then Ends(Err(OutOfData))
    else
      match DieAt(units[p.unit], p.pos)
      case Err(e) => Ends(Err(e))
      case Ok(Null(_)) => Ends(Err(OutOfData))
      case Ok(Entry(_, code, attrs, _)) =>
        var specs := units[p.unit].abbrevs[code].specs;
        match Deciding(specs)
        case None => Ends(Ok(None))
        case Some(i) =>
          if specs[i].attr != AT_NAME then HopBy(units, p, specs[i].form, attrs[i])
          else
            match StringAt(units[p.unit], strings, specs[i].form, attrs[i])
            case Err(e) => Ends(Err(e))
            case Ok(text) => Ends(Ok(Some(text)))
  }

  // ----- The calls -----

  /** What a call does, by the entry it is made at. */
  type Calls = Place -> Hop

  function CallsOf(units: seq<Unit>, strings: seq<byte>): Calls {
    (p: Place) => HopAt(units, strings, p)
  }

  /** Where the call at depth `k` is made, if there is one. */
  function Visited(calls: Calls, p: Place, k: nat): Option<Place> {
    if k == 0 then Some(p)
    else
      match Visited(calls, p, k - 1)
      case None => None
      case Some(q) => if calls(q).Goes? then Some(calls(q).place) else None
  }

  /** The calls come to an end. */
  ghost predicate Returns(calls: Calls, p: Place) {
    exists k: nat :: Visited(calls, p, k).None?
  }

  /** No call asks for an entry that another one is already asking for. */
  ghost predicate NoneTwice(calls: Calls, p: Place) {
    forall i: nat, j: nat :: i < j && Visited(calls, p, i).Some? && Visited(calls, p, j).Some? ==>
      Visited(calls, p, i) != Visited(calls, p, j)
  }

  /** The call at this depth throws or returns this. */
  predicate EndsAt(calls: Calls, p: Place, k: nat, r: Result<Option<seq<byte>>>) {
    Visited(calls, p, k).Some? && calls(Visited(calls, p, k).value) == Ends(r)
  }

  /** `name`: the answer is what the innermost call answers. */
  method Name(units: seq<Unit>, strings: seq<byte>, p: Place) returns (r: Result<Option<seq<byte>>>)
    requires Returns(CallsOf(units, strings), p)
    ensures exists k: nat :: EndsAt(CallsOf(units, strings), p, k, r)
    ensures forall k: nat, other :: EndsAt(CallsOf(units, strings), p, k, other) ==> other == r
  {
    ghost var calls := CallsOf(units, strings);
    ghost var end: nat :| Visited(calls, p, end).None?;
    ghost var k: nat;
    r, k := NameFrom(units, strings, p, p, 0, end);
    forall j: nat, other | EndsAt(calls, p, j, other)
      ensures other == r
    {
      EndsOnce(calls, p, k, r, j, other);
    }
  }

  method NameFrom(units: seq<Unit>, strings: seq<byte>, ghost p: Place, q: Place, ghost at: nat, ghost end: nat)
    returns (r: Result<Option<seq<byte>>>, ghost k: nat)
    requires Visited(CallsOf(units, strings), p, at) == Some(q) && Visited(CallsOf(units, strings), p, end).None?
    ensures EndsAt(CallsOf(units, strings), p, k, r)
    decreases end - at
  {
    ghost var calls := CallsOf(units, strings);
    if end <= at {
      Stays(calls, p, end, at);
    }
    var hop := HopAt(units, strings, q);
    assert calls(q) == hop;
    if hop.Ends? {
      return hop.result, at;
    }
    r, k := NameFrom(units, strings, p, hop.place, at + 1, end);
  }

  /** After the end nothing is asked any more. */
  lemma {:induction false} Stays(calls: Calls, p: Place, i: nat, j: nat)
    requires Visited(calls, p, i).None? && i <= j
    ensures Visited(calls, p, j).None?
    decreases j - i
  {
    if i < j {
      Stays(calls, p, i, j - 1);
    }
  }

  lemma EndsOnce(calls: Calls, p: Place, i: nat, r: Result<Option<seq<byte>>>, j: nat, other: Result<Option<seq<byte>>>)
    requires EndsAt(calls, p, i, r) && EndsAt(calls, p, j, other)
    ensures i == j && r == other
  {
    if i < j {
      Stays(calls, p, i + 1, j);
    } else if j < i {
      Stays(calls, p, j + 1, i);
    }
  }

  // ----- When it returns -----

  /** From one entry the calls go the same way each time. */
  lemma {:induction false} SameWay(calls: Calls, p: Place, i: nat, j: nat, k: nat)
    requires Visited(calls, p, i) == Visited(calls, p, j)
    ensures Visited(calls, p, i + k) == Visited(calls, p, j + k)
  {
    if k > 0 {
      SameWay(calls, p, i, j, k - 1);
    }
  }

  /** Calls that come back to an entry never end. */
  lemma {:induction false} CycleGoesOn(calls: Calls, p: Place, i: nat, j: nat, k: nat)
    requires i < j && Visited(calls, p, i).Some? && Visited(calls, p, i) == Visited(calls, p, j)
    ensures Visited(calls, p, k).Some?
  {
    if k < j {
      if Visited(calls, p, k).None? {
        Stays(calls, p, k, j);
      }
    } else {
      SameWay(calls, p, i, j, k - j);
      CycleGoesOn(calls, p, i, j, i + (k - j));
    }
  }

  /** Only calls at these places go on. */
  ghost predicate GoOnIn(calls: Calls, places: set<Place>) {
    forall q :: calls(q).Goes? ==> q in places
  }

  ghost function Asked(calls: Calls, p: Place, n: nat): set<Place> {
    set k: nat | k < n && Visited(calls, p, k).Some? :: Visited(calls, p, k).value
  }

  /** Calls that never ask twice use up the places. */
  lemma {:induction false} AskedGrows(calls: Calls, places: set<Place>, p: Place, n: nat)
    requires GoOnIn(calls, places) && NoneTwice(calls, p) && Visited(calls, p, n).Some?
    ensures |Asked(calls, p, n)| == n && Asked(calls, p, n) <= places
  {
    if n > 0 {
      var before, last := Asked(calls, p, n - 1), Visited(calls, p, n - 1).value;
      AskedGrows(calls, places, p, n - 1);
      assert last !in before;
      assert Asked(calls, p, n) == before + {last};
    }
  }

  lemma EndsExactly(calls: Calls, places: set<Place>, p: Place)
    requires GoOnIn(calls, places)
    ensures Returns(calls, p) <==> NoneTwice(calls, p)
  {
    if Returns(calls, p) {
      var k: nat :| Visited(calls, p, k).None?;
      forall i: nat, j: nat | i < j && Visited(calls, p, i).Some? && Visited(calls, p, j).Some?
        ensures Visited(calls, p, i) != Visited(calls, p, j)
      {
        if Visited(calls, p, i) == Visited(calls, p, j) {
          CycleGoesOn(calls, p, i, j, k);
        }
      }
    }
    if NoneTwice(calls, p) && Visited(calls, p, |places| + 1).Some? {
      AskedGrows(calls, places, p, |places| + 1);
      SubsetSize(Asked(calls, p, |places| + 1), places);
    }
  }

  /** The positions of the bytes of the units. */
  ghost function AllPlaces(units: seq<Unit>): set<Place> {
    set unit: nat, pos: nat | unit < |units| && pos < |units[unit].data| :: Place(unit, pos)
  }

  lemma HopIsInside(units: seq<Unit>, strings: seq<byte>, q: Place)
    ensures HopAt(units, strings, q).Goes? ==> q in AllPlaces(units)
  {
    if q.unit < |units| && q.pos >= |units[q.unit].data| {
      assert UlebAt(units[q.unit].data, q.pos).Err?;
    }
  }

  /** `name` returns, or throws, if and only if the references that it follows never come back to an entry. */
  lemma ReturnsExactly(units: seq<Unit>, strings: seq<byte>, p: Place)
    ensures Returns(CallsOf(units, strings), p) <==> NoneTwice(CallsOf(units, strings), p)
  {
    var calls, places := CallsOf(units, strings), AllPlaces(units);
    forall q | calls(q).Goes?
      ensures q in places
    {
      HopIsInside(units, strings, q);
    }
    EndsExactly(calls, places, p);
  }

  /** The witness: an entry whose specification is itself. */
  const OWN_SPECIFICATION := Unit([1, 0], 0, map[1 := Abbrev(0x2e, false, [AttrSpec(AT_SPECIFICATION, 0x11)])])

  lemma OwnSpecificationNeverReturns(strings: seq<byte>)
    ensures !Returns(CallsOf([OWN_SPECIFICATION], strings), Place(0, 0))
  {
    var calls, p := CallsOf([OWN_SPECIFICATION], strings), Place(0, 0);
    OwnSpecification(strings);
    assert Visited(calls, p, 0) == Some(p) == Visited(calls, p, 1);
    ReturnsExactly([OWN_SPECIFICATION], strings, p);
  }

  lemma OwnSpecification(strings: seq<byte>)
    ensures HopAt([OWN_SPECIFICATION], strings, Place(0, 0)) == Goes(Place(0, 0))
  {
    var u := OWN_SPECIFICATION;
    var specs := u.abbrevs[1].specs;
    assert specs[1..] == [];
    assert UlebEncode(1) == [1] && At(u.data, 0, [1]);
    UlebRoundTrip(u.data, 0, 1);
    assert SkipFormAt(u.data, 1, 0x11) == Ok(2) && SkipAttrs(u.data, 2, specs[1..]) == Ok(Skipped([], 2));
    assert SkipAttrs(u.data, 1, specs) == Ok(Skipped([1] + [], 2)) && [1] + [] == [1];
    assert DieAt(u, 0) == Ok(Entry(0, 1, [1], 2));
    assert Deciding(specs) == Some(0);
    assert LittleEndian(u.data[1..2]) == 0;
    assert ReferenceAt(u, 0x11, 1) == Ok(Here(0));
  }
}
