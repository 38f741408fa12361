/** Trees of entries written in pre-order, and the proof that they are laid out as the reader needs. */
module DieTrees {
  import opened Words
  import opened Cursors
  import opened Dies

  /** A tree of entries without its place. */
  datatype Shape = Shape(code: nat, attrs: seq<seq<byte>>, kids: seq<Shape>)

  predicate AttrsMatch(specs: seq<AttrSpec>, attrs: seq<seq<byte>>) {
    |attrs| == |specs| && forall i :: 0 <= i < |specs| ==> IsEncoding(specs[i].form, attrs[i])
  }

  /** Every entry has an abbreviation that its attributes fit, and children only where it allows them. */
  predicate WellFormed(u: Unit, s: Shape)
    decreases s, 1
  {
    && 0 < s.code < TWO_64 && s.code in u.abbrevs
    && AttrsMatch(u.abbrevs[s.code].specs, s.attrs)
    && (s.kids == [] || u.abbrevs[s.code].hasChildren)
    && AllWellFormed(u, s.kids)
  }

  predicate AllWellFormed(u: Unit, shapes: seq<Shape>)
    decreases shapes, 0
  {
    shapes == [] || (WellFormed(u, shapes[0]) && AllWellFormed(u, shapes[1..]))
  }

  /** Section 7.5: code, attributes, then the children and a null entry where the abbreviation says so. */
  function Encode(u: Unit, s: Shape): seq<byte>
    requires WellFormed(u, s)
    decreases s, 1
  {
    UlebEncode(s.code) + Concat(s.attrs)
    + if u.abbrevs[s.code].hasChildren then EncodeAll(u, s.kids) + [0] else []
  }

  function EncodeAll(u: Unit, shapes: seq<Shape>): seq<byte>
    requires AllWellFormed(u, shapes)
    decreases shapes, 0
  {
    if shapes == [] then [] else Encode(u, shapes[0]) + EncodeAll(u, shapes[1..])
  }

  /** Where the attributes start. */
  function Places(attrs: seq<seq<byte>>, pos: nat): (places: seq<nat>)
    ensures |places| == |attrs|
    decreases attrs
  {
    if attrs == [] then [] else [pos] + Places(attrs[1..], pos + |attrs[0]|)
  }

  /** The entry that the encoding at `pos` starts with. */
  function EntryAt(s: Shape, pos: nat): Die {
    var start := pos + |UlebEncode(s.code)|;
    Entry(pos, s.code, Places(s.attrs, start), start + |Concat(s.attrs)|)
  }

  /** The tree that the encoding at `pos` lays out. */
  function Place(u: Unit, s: Shape, pos: nat): Tree
    requires WellFormed(u, s)
    decreases s, 1
  {
    Tree(EntryAt(s, pos), s.attrs, pos + |Encode(u, s)|, PlaceAll(u, s.kids, EntryAt(s, pos).next))
  }

  function PlaceAll(u: Unit, shapes: seq<Shape>, pos: nat): seq<Tree>
    requires AllWellFormed(u, shapes)
    decreases shapes, 0
  {
    if shapes == [] then []
    else [Place(u, shapes[0], pos)] + PlaceAll(u, shapes[1..], pos + |Encode(u, shapes[0])|)
  }

  /** The sibling attributes of all entries of a placed tree are right. */
  predicate SiblingsRight(u: Unit, t: Tree)
    decreases t, 1
  {
    (HeaderLaid(u, t) ==> SiblingRight(u, t)) && AllSiblingsRight(u, t.kids)
  }

  predicate AllSiblingsRight(u: Unit, kids: seq<Tree>)
    decreases kids, 0
  {
    kids == [] || (SiblingsRight(u, kids[0]) && AllSiblingsRight(u, kids[1..]))
  }

  lemma {:induction false} AttrsAt(data: seq<byte>, pos: nat, specs: seq<AttrSpec>, attrs: seq<seq<byte>>)
    requires AttrsMatch(specs, attrs) && At(data, pos, Concat(attrs))
    ensures AttrsLaid(data, pos, specs, attrs, Places(attrs, pos), pos + |Concat(attrs)|)
    decreases specs
  {
    if specs != [] {
      AtSplit(data, pos, attrs[0], Concat(attrs[1..]));
      AttrsAt(data, pos + |attrs[0]|, specs[1..], attrs[1..]);
      assert Places(attrs, pos)[1..] == Places(attrs[1..], pos + |attrs[0]|);
    }
  }

  lemma HeaderAt(u: Unit, s: Shape, pos: nat, t: Tree)
    requires 0 < s.code < TWO_64 && s.code in u.abbrevs && AttrsMatch(u.abbrevs[s.code].specs, s.attrs)
    requires At(u.data, pos, UlebEncode(s.code) + Concat(s.attrs))
    requires t.entry == EntryAt(s, pos) && t.attrs == s.attrs
    ensures HeaderLaid(u, t)
  {
    AtSplit(u.data, pos, UlebEncode(s.code), Concat(s.attrs));
    AttrsAt(u.data, pos + |UlebEncode(s.code)|, u.abbrevs[s.code].specs, s.attrs);
  }

  /** A well-formed tree, encoded in pre-order wherever in the unit, is laid out as the reader needs it,
      provided that the sibling attributes it chooses to carry are right. */
  lemma {:induction false} EncodedIsLaid(u: Unit, s: Shape, pos: nat)
    requires WellFormed(u, s) && At(u.data, pos, Encode(u, s)) && SiblingsRight(u, Place(u, s, pos))
    ensures Laid(u, Place(u, s, pos))
    decreases s, 1
  {
    var t := Place(u, s, pos);
    var tail := if u.abbrevs[s.code].hasChildren then EncodeAll(u, s.kids) + [0] else [];
    HeaderAt(u, s, pos, t) by {
      AtSplit(u.data, pos, UlebEncode(s.code) + Concat(s.attrs), tail);
    }
    if u.abbrevs[s.code].hasChildren {
      SplitTail(u, s, pos);
      EncodedAreLaid(u, s.kids, t.entry.next, t.kids, t.end - 1);
      WithChildren(u, t);
    }
  }

  lemma SplitTail(u: Unit, s: Shape, pos: nat)
    requires WellFormed(u, s) && At(u.data, pos, Encode(u, s)) && u.abbrevs[s.code].hasChildren
    ensures var t := Place(u, s, pos);
            && At(u.data, t.entry.next, EncodeAll(u, s.kids)) && t.end - 1 == t.entry.next + |EncodeAll(u, s.kids)|
            && At(u.data, t.end - 1, [0]) && t.kids == PlaceAll(u, s.kids, t.entry.next)
  {
    var head := UlebEncode(s.code) + Concat(s.attrs);
    assert Encode(u, s) == head + (EncodeAll(u, s.kids) + [0]);
    AtSplit(u.data, pos, head, EncodeAll(u, s.kids) + [0]);
    AtSplit(u.data, pos + |head|, EncodeAll(u, s.kids), [0]);
  }

  lemma WithChildren(u: Unit, t: Tree)
    requires HeaderLaid(u, t) && SiblingRight(u, t) && u.abbrevs[t.entry.code].hasChildren
    requires 0 < t.end && At(u.data, t.end - 1, [0]) && KidsLaid(u, t.kids, t.entry.next, t.end - 1)
    ensures Laid(u, t)
  {
  }

  lemma {:induction false} EncodedAreLaid(u: Unit, shapes: seq<Shape>, pos: nat, kids: seq<Tree>, end: nat)
    requires AllWellFormed(u, shapes) && At(u.data, pos, EncodeAll(u, shapes))
    requires kids == PlaceAll(u, shapes, pos) && AllSiblingsRight(u, kids) && end == pos + |EncodeAll(u, shapes)|
    ensures KidsLaid(u, kids, pos, end)
    decreases shapes, 0
  {
    if shapes != [] {
      SplitFirst(u, shapes, pos, kids);
      EncodedIsLaid(u, shapes[0], pos);
      EncodedAreLaid(u, shapes[1..], kids[0].end, kids[1..], end);
      KidsLaidCons(u, kids, pos, end);
    }
  }

  /** The first of several trees, and the others after it. */
  lemma SplitFirst(u: Unit, shapes: seq<Shape>, pos: nat, kids: seq<Tree>)
    requires AllWellFormed(u, shapes) && shapes != [] && At(u.data, pos, EncodeAll(u, shapes))
    requires kids == PlaceAll(u, shapes, pos) && AllSiblingsRight(u, kids)
    ensures var first, next := Encode(u, shapes[0]), pos + |Encode(u, shapes[0])|;
            && At(u.data, pos, first) && At(u.data, next, EncodeAll(u, shapes[1..]))
            && kids != [] && kids[0] == Place(u, shapes[0], pos) && kids[0].entry.pos == pos && kids[0].end == next
            && kids[1..] == PlaceAll(u, shapes[1..], next)
            && SiblingsRight(u, kids[0]) && AllSiblingsRight(u, kids[1..])
            && pos + |EncodeAll(u, shapes)| == next + |EncodeAll(u, shapes[1..])|
  {
    var first, rest := Encode(u, shapes[0]), EncodeAll(u, shapes[1..]);
    AtSplit(u.data, pos, first, rest);
    assert kids == [Place(u, shapes[0], pos)] + PlaceAll(u, shapes[1..], pos + |first|);
  }

  lemma KidsLaidCons(u: Unit, kids: seq<Tree>, from: nat, to: nat)
    requires kids != [] && Laid(u, kids[0]) && kids[0].entry.pos == from && KidsLaid(u, kids[1..], kids[0].end, to)
    ensures KidsLaid(u, kids, from, to)
  {
  }
}
