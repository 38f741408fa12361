/** Debugging information entries (sections 2.3 and 7.5 of DWARF 4): parsing one entry, and stepping
    over the children of another in a byte string that holds the tree in pre-order. */
module Dies {
  import opened Words
  import opened Cursors

  const AT_SIBLING := 0x01

  datatype AttrSpec = AttrSpec(attr: nat, form: nat)

  datatype Abbrev = Abbrev(tag: nat, hasChildren: bool, specs: seq<AttrSpec>)

  /** A compile unit: its bytes, header included, and where they start in `.debug_info`. */
  datatype Unit = Unit(data: seq<byte>, start: nat, abbrevs: map<nat, Abbrev>)

  /** A parsed entry with the positions of its attributes, or the null entry that ends a list. */
  datatype Die = Null(next: nat) | Entry(pos: nat, code: nat, attrs: seq<nat>, next: nat)

  // ----- Parsing one entry -----

  datatype Skipped = Skipped(attrs: seq<nat>, next: nat)

  function SkipAttrs(data: seq<byte>, pos: nat, specs: seq<AttrSpec>): (r: Result<Skipped>)
    ensures r.Ok? ==> |r.value.attrs| == |specs|
    decreases specs
  {
    if specs == [] then Ok(Skipped([], pos))
    else
      var next :- SkipFormAt(data, pos, specs[0].form);
      var rest :- SkipAttrs(data, next, specs[1..]);
      Ok(Skipped([pos] + rest.attrs, rest.next))
  }

  function DieAt(u: Unit, pos: nat): (r: Result<Die>)
    ensures r.Ok? && r.value.Entry? ==>
              r.value.code in u.abbrevs && |r.value.attrs| == |u.abbrevs[r.value.code].specs|
  {
    var code :- UlebAt(u.data, pos);
    if code.value == 0 then Ok(Null(code.next))
    else if code.value !in u.abbrevs then Err(UnknownAbbreviation)
    else
      var skipped :- SkipAttrs(u.data, code.next, u.abbrevs[code.value].specs);
      Ok(Entry(pos, code.value, skipped.attrs, skipped.next))
  }

  /** `parse_die`. */
  method ParseDie(u: Unit, pos: nat) returns (r: Result<Die>)
    ensures r == DieAt(u, pos)
  {
    var cur := new Cursor(u.data, pos);
    var code :- cur.Uleb128();
    if code == 0 {
      return Ok(Null(cur.pos));
    }
    if code !in u.abbrevs {
      return Err(UnknownAbbreviation);
    }
    var attrs :- SkipAttributes(cur, u.abbrevs[code].specs);
    r := Ok(Entry(pos, code, attrs, cur.pos));
  }

  method SkipAttributes(cur: Cursor, specs: seq<AttrSpec>) returns (r: Result<seq<nat>>)
    modifies cur`pos
    ensures match SkipAttrs(cur.data, old(cur.pos), specs)
            case Ok(s) => r == Ok(s.attrs) && cur.pos == s.next
            case Err(e) => r == Err(e)
  {
    var attrs: seq<nat> := [];
    ghost var all := SkipAttrs(cur.data, cur.pos, specs);
    assert specs[0..] == specs;
    assert all.Ok? ==> [] + all.value.attrs == all.value.attrs;
    for i := 0 to |specs|
      invariant all == After(attrs, SkipAttrs(cur.data, cur.pos, specs[i..]))
    {
      assert specs[i..][1..] == specs[i + 1..];
      AfterOne(attrs, cur.pos, cur.data, specs[i..]);
      attrs := attrs + [cur.pos];
      var _ :- cur.SkipForm(specs[i].form);
    }
    assert specs[|specs|..] == [] && attrs + [] == attrs;
    r := Ok(attrs);
  }

  function After(attrs: seq<nat>, rest: Result<Skipped>): Result<Skipped> {
    match rest
    case Ok(s) => Ok(Skipped(attrs + s.attrs, s.next))
    case Err(e) => Err(e)
  }

  lemma {:induction false} AfterOne(attrs: seq<nat>, pos: nat, data: seq<byte>, specs: seq<AttrSpec>)
    requires specs != []
    ensures var next := SkipFormAt(data, pos, specs[0].form);
            && (next.Err? ==> After(attrs, SkipAttrs(data, pos, specs)) == Err(next.error))
            && (next.Ok? ==> After(attrs, SkipAttrs(data, pos, specs)) == After(attrs + [pos], SkipAttrs(data, next.value, specs[1..])))
  {
    var next := SkipFormAt(data, pos, specs[0].form);
    if next.Ok? {
      var rest := SkipAttrs(data, next.value, specs[1..]);
      if rest.Ok? {
        assert attrs + ([pos] + rest.value.attrs) == attrs + [pos] + rest.value.attrs;
      }
    }
  }

  // ----- References -----

  function FindAttr(specs: seq<AttrSpec>, attr: nat): (r: Option<nat>)
    ensures r.Some? ==> r.value < |specs| && specs[r.value].attr == attr
    ensures r.None? ==> forall i :: 0 <= i < |specs| ==> specs[i].attr != attr
  {
    if specs == [] then None
    else if specs[0].attr == attr then Some(0)
    else
      match FindAttr(specs[1..], attr)
      case None => None
      case Some(i) => Some(i + 1)
  }

  /** Where a reference attribute leads: to a position in the unit, or to an offset in `.debug_info` that
      belongs to another unit. */
  datatype Ref = Here(pos: nat) | Elsewhere(offset: nat)

  function ReferenceAt(u: Unit, form: nat, pos: nat): Result<Ref> {
    match form
    case 0x11 => Inside(IntAt(u.data, pos, 1))
    case 0x12 => Inside(IntAt(u.data, pos, 2))
    case 0x13 => Inside(IntAt(u.data, pos, 4))
    case 0x14 => Inside(UlebAt(u.data, pos))
    case 0x10 =>
      var offset :- IntAt(u.data, pos, 4);
      Ok(if u.start <= offset.value < u.start + |u.data| then Here(offset.value - u.start) else Elsewhere(offset.value))
    case _ => Err(InvalidReference)
  }

  function Inside(read: Result<Read<nat>>): Result<Ref> {
    var r :- read;
    Ok(Here(r.value))
  }

  method Reference(u: Unit, form: nat, pos: nat) returns (r: Result<Ref>)
    ensures r == ReferenceAt(u, form, pos)
  {
    var cur := new Cursor(u.data, pos);
    var offset;
    match form {
      case 0x11 => offset :- cur.FixedInt(1);
      case 0x12 => offset :- cur.FixedInt(2);
      case 0x13 => offset :- cur.FixedInt(4);
      case 0x14 => offset :- cur.Uleb128();
      case 0x10 =>
        offset :- cur.FixedInt(4);
        return Ok(if u.start <= offset < u.start + |u.data| then Here(offset - u.start) else Elsewhere(offset));
      case _ => return Err(InvalidReference);
    }
    r := Ok(Here(offset));
  }

  // ----- Trees laid out in the bytes -----

  /** A tree of entries with its place: the entry that parsing should give, the bytes of its attributes,
      and the position after its children and their null entry. */
  datatype Tree = Tree(entry: Die, attrs: seq<seq<byte>>, end: nat, kids: seq<Tree>)

  /** The attributes lie one after another at these positions. */
  predicate AttrsLaid(data: seq<byte>, pos: nat, specs: seq<AttrSpec>, attrs: seq<seq<byte>>, places: seq<nat>, end: nat)
    decreases specs
  {
    if specs == [] then attrs == [] && places == [] && pos == end
    else
      && attrs != [] && places != [] && places[0] == pos
      && At(data, pos, attrs[0]) && IsEncoding(specs[0].form, attrs[0])
      && AttrsLaid(data, pos + |attrs[0]|, specs[1..], attrs[1..], places[1..], end)
  }

  predicate HeaderLaid(u: Unit, t: Tree) {
    && t.entry.Entry? && 0 < t.entry.code < TWO_64 && t.entry.code in u.abbrevs
    && |t.entry.attrs| == |u.abbrevs[t.entry.code].specs|
    && At(u.data, t.entry.pos, UlebEncode(t.entry.code))
    && AttrsLaid(u.data, t.entry.pos + |UlebEncode(t.entry.code)|, u.abbrevs[t.entry.code].specs, t.attrs, t.entry.attrs, t.entry.next)
  }

  /** The forms of reference that `as_reference` takes, apart from the one that it never meets. */
  predicate Followed(form: nat) {
    0x10 <= form <= 0x13
  }

  /** An entry with children that has a sibling attribute refers to what follows its subtree, by one of the
      forms that are followed. */
  predicate SiblingRight(u: Unit, t: Tree)
    requires HeaderLaid(u, t)
  {
    var abbrev := u.abbrevs[t.entry.code];
    var i := FindAttr(abbrev.specs, AT_SIBLING);
    i.Some? && abbrev.hasChildren && Followed(abbrev.specs[i.value].form) ==>
      ReferenceAt(u, abbrev.specs[i.value].form, t.entry.attrs[i.value]) == Ok(Here(t.end))
  }

  /** Section 2.3: the tree in pre-order, each list of children ended by a null entry. */
  predicate Laid(u: Unit, t: Tree)
    decreases t, 1
  {
    && HeaderLaid(u, t) && SiblingRight(u, t)
    && if u.abbrevs[t.entry.code].hasChildren
       then 0 < t.end && At(u.data, t.end - 1, [0]) && KidsLaid(u, t.kids, t.entry.next, t.end - 1)
       else t.kids == [] && t.entry.next == t.end
  }

  predicate KidsLaid(u: Unit, kids: seq<Tree>, from: nat, to: nat)
    decreases kids, 0
  {
    if kids == [] then from == to
    else Laid(u, kids[0]) && kids[0].entry.pos == from && KidsLaid(u, kids[1..], kids[0].end, to)
  }

  // ----- What the reader makes of a tree -----

  /** Some attribute has a form that the reader rejects. */
  predicate SomeRejected(specs: seq<AttrSpec>, attrs: seq<seq<byte>>)
    decreases specs
  {
    specs != [] && attrs != [] && (Rejects(specs[0].form, attrs[0]) || SomeRejected(specs[1..], attrs[1..]))
  }

  predicate HasChildren(u: Unit, t: Tree) {
    t.entry.Entry? && t.entry.code in u.abbrevs && u.abbrevs[t.entry.code].hasChildren
  }

  predicate Refused(u: Unit, t: Tree) {
    t.entry.Entry? && t.entry.code in u.abbrevs && SomeRejected(u.abbrevs[t.entry.code].specs, t.attrs)
  }

  /** The sibling attribute that `++` goes by. */
  function Sibling(u: Unit, t: Tree): Option<nat> {
    if HasChildren(u, t) then FindAttr(u.abbrevs[t.entry.code].specs, AT_SIBLING) else None
  }

  /** The sibling attribute has a form that `as_reference` does not take. */
  predicate Lost(u: Unit, t: Tree) {
    Sibling(u, t).Some? && !Followed(u.abbrevs[t.entry.code].specs[Sibling(u, t).value].form)
  }

  /** The error that `++` on a parsed entry throws before it parses what follows, if it throws one. */
  function Cross(u: Unit, t: Tree): Option<Error>
    decreases t, 1
  {
    if Lost(u, t) then Some(InvalidReference)
    else if HasChildren(u, t) && Sibling(u, t).None? then CrossKids(u, t.kids)
    else None
  }

  /** The error of iterating over these children, if there is one. */
  function CrossKids(u: Unit, kids: seq<Tree>): Option<Error>
    decreases kids, 0
  {
    if kids == [] then None
    else if Refused(u, kids[0]) then Some(UnknownForm)
    else if Cross(u, kids[0]).Some? then Cross(u, kids[0])
    else CrossKids(u, kids[1..])
  }

  /** The entries that iterating over these children parses: the children, and below one that has children
      and no sibling attribute its own in turn. */
  function Way(u: Unit, kids: seq<Tree>): seq<Tree>
    decreases kids, 0
  {
    if kids == [] then [] else [kids[0]] + WayBelow(u, kids[0]) + Way(u, kids[1..])
  }

  function WayBelow(u: Unit, t: Tree): seq<Tree>
    decreases t, 1
  {
    if HasChildren(u, t) && Sibling(u, t).None? then Way(u, t.kids) else []
  }

  predicate Clear(u: Unit, way: seq<Tree>) {
    forall i :: 0 <= i < |way| ==> !Refused(u, way[i]) && !Lost(u, way[i])
  }

  predicate NoneLost(u: Unit, way: seq<Tree>) {
    forall i :: 0 <= i < |way| ==> !Lost(u, way[i])
  }

  lemma ClearAppend(u: Unit, a: seq<Tree>, b: seq<Tree>)
    ensures Clear(u, a + b) <==> Clear(u, a) && Clear(u, b)
  {
    if Clear(u, a + b) {
      assert forall i :: 0 <= i < |a| ==> (a + b)[i] == a[i];
      assert forall i :: 0 <= i < |b| ==> (a + b)[|a| + i] == b[i];
    }
  }

  /** Iterating over children succeeds if and only if no entry on the way has an attribute of a rejected
      form, or children and a sibling attribute that is not followed; otherwise it throws for the form, or
      for the reference. */
  lemma {:induction false} CrossKidsExactly(u: Unit, kids: seq<Tree>)
    ensures CrossKids(u, kids) == None <==> Clear(u, Way(u, kids))
    ensures CrossKids(u, kids) in {None, Some(UnknownForm), Some(InvalidReference)}
    ensures NoneLost(u, Way(u, kids)) ==> CrossKids(u, kids) != Some(InvalidReference)
    decreases kids, 0
  {
    if kids != [] {
      var first, below, rest := [kids[0]], WayBelow(u, kids[0]), Way(u, kids[1..]);
      CrossExactly(u, kids[0]);
      CrossKidsExactly(u, kids[1..]);
      ClearAppend(u, first + below, rest);
      ClearAppend(u, first, below);
      assert first[0] == kids[0];
      if NoneLost(u, Way(u, kids)) {
        NothingLost(u, first + below, rest);
        NothingLost(u, first, below);
      }
    }
  }

  lemma NothingLost(u: Unit, a: seq<Tree>, b: seq<Tree>)
    requires NoneLost(u, a + b)
    ensures NoneLost(u, a) && NoneLost(u, b)
  {
    forall i | 0 <= i < |b| ensures !Lost(u, b[i]) {
      assert (a + b)[|a| + i] == b[i];
    }
    forall i | 0 <= i < |a| ensures !Lost(u, a[i]) {
      assert (a + b)[i] == a[i];
    }
  }

  lemma {:induction false} CrossExactly(u: Unit, t: Tree)
    ensures Cross(u, t) == None <==> !Lost(u, t) && Clear(u, WayBelow(u, t))
    ensures Cross(u, t) in {None, Some(UnknownForm), Some(InvalidReference)}
    ensures !Lost(u, t) && NoneLost(u, WayBelow(u, t)) ==> Cross(u, t) != Some(InvalidReference)
    decreases t, 1
  {
    if HasChildren(u, t) && Sibling(u, t).None? {
      CrossKidsExactly(u, t.kids);
    }
  }

  lemma {:induction false} AttrsSkip(data: seq<byte>, pos: nat, specs: seq<AttrSpec>, attrs: seq<seq<byte>>, places: seq<nat>, end: nat)
    requires AttrsLaid(data, pos, specs, attrs, places, end)
    ensures SkipAttrs(data, pos, specs) == if SomeRejected(specs, attrs) then Err(UnknownForm) else Ok(Skipped(places, end))
    decreases specs
  {
    if specs != [] {
      SkipFormExactly(data, pos, specs[0].form, attrs[0]);
      if !Rejects(specs[0].form, attrs[0]) {
        AttrsSkip(data, pos + |attrs[0]|, specs[1..], attrs[1..], places[1..], end);
        assert [places[0]] + places[1..] == places;
      }
    }
  }

  /** Parsing at the place of a laid-out tree gives its entry, if and only if no attribute has a form that the
      reader rejects. */
  lemma ParseLaid(u: Unit, t: Tree)
    requires Laid(u, t)
    ensures DieAt(u, t.entry.pos) == if Refused(u, t) then Err(UnknownForm) else Ok(t.entry)
    ensures t.entry.Entry?
  {
    var e := t.entry;
    UlebRoundTrip(u.data, e.pos, e.code);
    AttrsSkip(u.data, e.pos + |UlebEncode(e.code)|, u.abbrevs[e.code].specs, t.attrs, e.attrs, e.next);
  }

  lemma ParseNull(u: Unit, pos: nat)
    requires At(u.data, pos, [0])
    ensures DieAt(u, pos) == Ok(Null(pos + 1))
  {
    assert UlebEncode(0) == [0];
    UlebRoundTrip(u.data, pos, 0);
  }

  /** What parsing gives for child `k`; the null entry comes after the last. */
  function Child(u: Unit, t: Tree, k: nat): Result<Die>
    requires k <= |t.kids|
  {
    if k == |t.kids| then Ok(Null(t.end))
    else if Refused(u, t.kids[k]) then Err(UnknownForm)
    else Ok(t.kids[k].entry)
  }

  lemma {:induction false} KidLaid(u: Unit, kids: seq<Tree>, from: nat, to: nat, k: nat)
    requires KidsLaid(u, kids, from, to) && k < |kids|
    ensures Laid(u, kids[k]) && Laid(u, kids[0]) && kids[0].entry.pos == from
    ensures k + 1 == |kids| ==> kids[k].end == to
    ensures k + 1 < |kids| ==> Laid(u, kids[k + 1]) && kids[k + 1].entry.pos == kids[k].end
    decreases kids
  {
    if k > 0 {
      KidLaid(u, kids[1..], kids[0].end, to, k - 1);
    } else if |kids| > 1 {
      KidLaid(u, kids[1..], kids[0].end, to, 0);
    }
  }

  /** Parsing just after the entry gives the first child. */
  lemma ParseFirst(u: Unit, t: Tree)
    requires Laid(u, t) && HasChildren(u, t)
    ensures DieAt(u, t.entry.next) == Child(u, t, 0)
    ensures Child(u, t, 0).Ok? ==> (Child(u, t, 0).value.Entry? <==> t.kids != [])
  {
    if t.kids == [] {
      ParseNull(u, t.end - 1);
    } else {
      KidLaid(u, t.kids, t.entry.next, t.end - 1, 0);
      ParseLaid(u, t.kids[0]);
    }
  }

  /** Parsing just after child `k` gives the next one, or the null entry. */
  lemma ParseNext(u: Unit, t: Tree, k: nat)
    requires Laid(u, t) && HasChildren(u, t) && k < |t.kids|
    ensures Laid(u, t.kids[k])
    ensures DieAt(u, t.kids[k].end) == Child(u, t, k + 1)
    ensures Child(u, t, k + 1).Ok? ==> (Child(u, t, k + 1).value.Entry? <==> k + 1 < |t.kids|)
  {
    KidLaid(u, t.kids, t.entry.next, t.end - 1, k);
    if k + 1 < |t.kids| {
      ParseLaid(u, t.kids[k + 1]);
    } else {
      ParseNull(u, t.end - 1);
    }
  }

  // ----- Iterating children -----

  /** What is left of the iteration when child `k` has been parsed. */
  function Onward(u: Unit, t: Tree, k: nat): Option<Error>
    requires k <= |t.kids|
  {
    CrossKids(u, t.kids[k..])
  }

  lemma OnwardStep(u: Unit, t: Tree, k: nat)
    requires k < |t.kids| && !Refused(u, t.kids[k])
    ensures Onward(u, t, k) == if Cross(u, t.kids[k]).Some? then Cross(u, t.kids[k]) else Onward(u, t, k + 1)
    ensures k + 1 < |t.kids| && Refused(u, t.kids[k + 1]) ==> Onward(u, t, k + 1) == Some(UnknownForm)
    ensures k + 1 == |t.kids| ==> Onward(u, t, k + 1) == None
  {
    assert t.kids[k..][1..] == t.kids[k + 1..];
  }

  /** `children_range::iterator::operator ++`: by the entry's end, by its sibling attribute, or by
      walking its own children, the step leads to whatever follows the whole subtree. */
  method NextSibling(u: Unit, d: Die, ghost t: Tree) returns (r: Result<Die>)
    requires Laid(u, t) && d == t.entry && !Refused(u, t)
    ensures r == if Cross(u, t).Some? then Err(Cross(u, t).value) else DieAt(u, t.end)
    decreases t, 2
  {
    var abbrev := u.abbrevs[d.code];
    if !abbrev.hasChildren {
      r := ParseDie(u, d.next);
    } else {
      var sibling := FindAttr(abbrev.specs, AT_SIBLING);
      if sibling.Some? {
        AttrsCount(u.data, d.pos + |UlebEncode(d.code)|, abbrev.specs, t.attrs, d.attrs, d.next);
        NeverRejected(abbrev.specs, t.attrs, sibling.value);
        var target :- Reference(u, abbrev.specs[sibling.value].form, d.attrs[sibling.value]);
        r := ParseDie(u, target.pos);
      } else {
        r := SkipChildren(u, d, t);
      }
    }
  }

  method SkipChildren(u: Unit, d: Die, ghost t: Tree) returns (r: Result<Die>)
    requires Laid(u, t) && d == t.entry && HasChildren(u, t)
    ensures r == if CrossKids(u, t.kids).Some? then Err(CrossKids(u, t.kids).value) else DieAt(u, t.end)
    decreases t, 1
  {
    var sub :- FirstChild(u, d, t);
    ghost var k := 0;
    assert t.kids[0..] == t.kids;
    while sub.Entry?
      invariant k <= |t.kids| && Child(u, t, k) == Ok(sub) && (sub.Entry? <==> k < |t.kids|)
      invariant CrossKids(u, t.kids) == Onward(u, t, k)
      decreases |t.kids| - k
    {
      OnwardStep(u, t, k);
      sub :- NextChild(u, sub, t, k);
      k := k + 1;
    }
    r := ParseDie(u, sub.next);
  }

  /** The iterator that `begin()` makes for an entry with children. */
  method FirstChild(u: Unit, d: Die, ghost t: Tree) returns (child: Result<Die>)
    requires Laid(u, t) && d == t.entry && HasChildren(u, t)
    ensures child == Child(u, t, 0) && (child.Ok? ==> (child.value.Entry? <==> t.kids != []))
    ensures child.Err? ==> CrossKids(u, t.kids) == Some(child.error)
  {
    ParseFirst(u, t);
    child := ParseDie(u, d.next);
  }

  method NextChild(u: Unit, d: Die, ghost t: Tree, ghost k: nat) returns (child: Result<Die>)
    requires Laid(u, t) && HasChildren(u, t) && k < |t.kids| && Child(u, t, k) == Ok(d)
    ensures child == if Cross(u, t.kids[k]).Some? then Err(Cross(u, t.kids[k]).value) else Child(u, t, k + 1)
    ensures child.Ok? ==> (child.value.Entry? <==> k + 1 < |t.kids|) && Onward(u, t, k) == Onward(u, t, k + 1)
    ensures child.Err? ==> Onward(u, t, k) == Some(child.error)
    decreases t, 0
  {
    ParseNext(u, t, k);
    OnwardStep(u, t, k);
    child := NextSibling(u, d, t.kids[k]);
  }

  lemma {:induction false} AttrsCount(data: seq<byte>, pos: nat, specs: seq<AttrSpec>, attrs: seq<seq<byte>>, places: seq<nat>, end: nat)
    requires AttrsLaid(data, pos, specs, attrs, places, end)
    ensures |attrs| == |specs| == |places|
    decreases specs
  {
    if specs != [] {
      AttrsCount(data, pos + |attrs[0]|, specs[1..], attrs[1..], places[1..], end);
    }
  }

  /** An entry that the reader parses has no attribute of a rejected form, among them `ref8`. */
  lemma {:induction false} NeverRejected(specs: seq<AttrSpec>, attrs: seq<seq<byte>>, i: nat)
    requires |specs| == |attrs| && i < |specs| && !SomeRejected(specs, attrs)
    ensures !KindOf(specs[i].form).Rejected?
    decreases specs
  {
    if i > 0 {
      NeverRejected(specs[1..], attrs[1..], i - 1);
    }
  }

  /** The entries of these trees. */
  function Entries(kids: seq<Tree>): (entries: seq<Die>)
    ensures |entries| == |kids| && forall k :: 0 <= k < |kids| ==> entries[k] == kids[k].entry
  {
    if kids == [] then [] else Entries(kids[..|kids| - 1]) + [kids[|kids| - 1].entry]
  }

  /** The loop over `children()`: exactly the direct children, in order, up to the null entry, or the error
      of the first entry on the way that cannot be read. */
  method Children(u: Unit, d: Die, ghost t: Tree) returns (found: Result<seq<Die>>)
    requires Laid(u, t) && d == t.entry
    ensures found == if HasChildren(u, t) && CrossKids(u, t.kids).Some? then Err(CrossKids(u, t.kids).value) else Ok(Entries(t.kids))
  {
    var dies: seq<Die> := [];
    if u.abbrevs[d.code].hasChildren {
      var child :- FirstChild(u, d, t);
      ghost var k := 0;
      assert t.kids[0..] == t.kids;
      while child.Entry?
        invariant k <= |t.kids| && Child(u, t, k) == Ok(child) && (child.Entry? <==> k < |t.kids|)
        invariant CrossKids(u, t.kids) == Onward(u, t, k)
        invariant dies == Entries(t.kids[..k])
        decreases |t.kids| - k
      {
        OnwardStep(u, t, k);
        EntriesSnoc(t.kids, k);
        dies := dies + [child];
        child :- NextChild(u, child, t, k);
        k := k + 1;
      }
      assert t.kids[k..] == [] && t.kids[..k] == t.kids;
    }
    found := Ok(dies);
  }

  lemma EntriesSnoc(kids: seq<Tree>, k: nat)
    requires k < |kids|
    ensures Entries(kids[..k + 1]) == Entries(kids[..k]) + [kids[k].entry]
  {
    assert kids[..k + 1][..k] == kids[..k];
  }

  // ----- The witness -----

  /** A subprogram whose only attribute is its address, `DW_AT_low_pc` of form `DW_FORM_addr`. */
  const PLAIN: Unit := Unit([1, 0, 0, 0, 0, 0, 0, 0, 0], 0, map[1 := Abbrev(0x2e, false, [AttrSpec(0x11, 0x01)])])

  /** It is laid out as the standard says, and parsing it fails. */
  lemma AddressIsRejected()
    ensures var t := Tree(Entry(0, 1, [1], 9), [[0, 0, 0, 0, 0, 0, 0, 0]], 9, []);
            Laid(PLAIN, t) && Refused(PLAIN, t) && DieAt(PLAIN, 0) == Err(UnknownForm)
  {
    var t := Tree(Entry(0, 1, [1], 9), [[0, 0, 0, 0, 0, 0, 0, 0]], 9, []);
    var u, specs := PLAIN, [AttrSpec(0x11, 0x01)];
    assert UlebEncode(1) == [1] && u.data[0..1] == [1] && u.data[1..9] == t.attrs[0];
    assert specs[1..] == [] && t.attrs[1..] == [] && t.entry.attrs[1..] == [];
    assert AttrsLaid(u.data, 9, [], [], [], 9);
    assert AttrsLaid(u.data, 1, specs, t.attrs, t.entry.attrs, 9);
    assert FindAttr(specs[1..], AT_SIBLING) == None;
    ParseLaid(u, t);
  }
}
