/** The function index over all compile units, and the inline stack at an address. */
module FunctionIndex {
  import opened Words
  import opened Dies
  import opened DieAddresses

  const TAG_SUBPROGRAM := 0x2e
  const TAG_INLINED_SUBROUTINE := 0x1d

  datatype IndexEntry = IndexEntry(name: seq<byte>, unit: nat, pos: nat)

  predicate HasAttr(a: Abbrev, attr: nat) {
    FindAttr(a.specs, attr).Some?
  }

  predicate IsFunction(a: Abbrev) {
    (HasAttr(a, AT_LOW_PC) || HasAttr(a, AT_RANGES)) && a.tag in {TAG_SUBPROGRAM, TAG_INLINED_SUBROUTINE}
  }

  /** What `name` answers, by unit and position of the entry, or throws; `EntryNames` says how it comes to that,
      and when it returns at all. */
  type Names = (nat, nat) -> Result<Option<seq<byte>>>

  // ----- The functions of a tree -----

  /** The entry itself, if it is a named function with ranges. */
  function Own(u: Unit, names: Names, unit: nat, d: Die): seq<IndexEntry> {
    if d.Entry? && d.code in u.abbrevs && IsFunction(u.abbrevs[d.code]) && names(unit, d.pos).Ok? && names(unit, d.pos).value.Some?
    then [IndexEntry(names(unit, d.pos).value.value, unit, d.pos)]
    else []
  }

  /** All entries of a tree, in the order of their bytes. */
  function Preorder(t: Tree): seq<Die>
    decreases t, 1
  {
    [t.entry] + PreorderOf(t.kids)
  }

  function PreorderOf(kids: seq<Tree>): seq<Die>
    decreases kids, 0
  {
    if kids == [] then [] else Preorder(kids[0]) + PreorderOf(kids[1..])
  }

  /** The named functions with ranges among these entries. */
  function Collected(u: Unit, names: Names, unit: nat, dies: seq<Die>): seq<IndexEntry> {
    if dies == [] then [] else Own(u, names, unit, dies[0]) + Collected(u, names, unit, dies[1..])
  }

  lemma {:induction false} CollectedAppend(u: Unit, names: Names, unit: nat, a: seq<Die>, b: seq<Die>)
    ensures Collected(u, names, unit, a + b) == Collected(u, names, unit, a) + Collected(u, names, unit, b)
    decreases a
  {
    if a == [] {
      assert a + b == b;
    } else {
      assert (a + b)[1..] == a[1..] + b;
      CollectedAppend(u, names, unit, a[1..], b);
      var own, x, y := Own(u, names, unit, a[0]), Collected(u, names, unit, a[1..]), Collected(u, names, unit, b);
      assert own + (x + y) == (own + x) + y;
    }
  }

  // ----- Building the index -----

  /** What building the index of a part adds, up to the error that ends it, if one does. */
  datatype Built = Built(entries: seq<IndexEntry>, error: Option<Error>)

  const DONE := Built([], None)

  function Then(a: Built, b: Built): Built {
    if a.error.Some? then a else Built(a.entries + b.entries, b.error)
  }

  function OwnBuilt(u: Unit, names: Names, unit: nat, d: Die): Built {
    if d.Entry? && d.code in u.abbrevs && IsFunction(u.abbrevs[d.code]) && names(unit, d.pos).Err?
    then Built([], Some(names(unit, d.pos).error))
    else Built(Own(u, names, unit, d), None)
  }

  function ParsedBuilt(u: Unit, t: Tree): Built {
    Built([], if Refused(u, t) then Some(UnknownForm) else None)
  }

  /** `index_die` on a parsed entry: the entry itself, then child after child as the iterator comes to it. */
  function BuildOf(u: Unit, names: Names, unit: nat, t: Tree): Built
    decreases t, 1
  {
    Then(OwnBuilt(u, names, unit, t.entry), if HasChildren(u, t) then BuildKids(u, names, unit, t.kids) else DONE)
  }

  function BuildKids(u: Unit, names: Names, unit: nat, kids: seq<Tree>): Built
    decreases kids, 0
  {
    if kids == [] then DONE
    else
      Then(ParsedBuilt(u, kids[0]),
           Then(BuildOf(u, names, unit, kids[0]),
                Then(Built([], Cross(u, kids[0])), BuildKids(u, names, unit, kids[1..]))))
  }

  /** Only entries whose abbreviation allows it have children, as in every laid-out tree. */
  predicate Proper(u: Unit, t: Tree)
    decreases t, 1
  {
    (HasChildren(u, t) || t.kids == []) && AllProper(u, t.kids)
  }

  predicate AllProper(u: Unit, kids: seq<Tree>)
    decreases kids, 0
  {
    kids == [] || (Proper(u, kids[0]) && AllProper(u, kids[1..]))
  }

  lemma {:induction false} LaidIsProper(u: Unit, t: Tree)
    requires Laid(u, t)
    ensures Proper(u, t)
    decreases t, 1
  {
    if HasChildren(u, t) {
      KidsAreProper(u, t.kids, t.entry.next, t.end - 1);
    }
  }

  lemma {:induction false} KidsAreProper(u: Unit, kids: seq<Tree>, from: nat, to: nat)
    requires KidsLaid(u, kids, from, to)
    ensures AllProper(u, kids)
    decreases kids, 0
  {
    if kids != [] {
      LaidIsProper(u, kids[0]);
      KidsAreProper(u, kids[1..], kids[0].end, to);
    }
  }

  /** A build adds the functions of the part from the front, up to its error. */
  predicate Builds(b: Built, all: seq<IndexEntry>) {
    b.entries <= all && (b.error.None? ==> b.entries == all)
  }

  lemma ThenBuilds(a: Built, b: Built, x: seq<IndexEntry>, y: seq<IndexEntry>)
    requires Builds(a, x) && Builds(b, y)
    ensures Builds(Then(a, b), x + y)
  {
    if a.error.None? {
      assert (x + y)[..|x| + |b.entries|] == x + y[..|b.entries|];
    } else {
      assert (x + y)[..|a.entries|] == x[..|a.entries|];
    }
  }

  /** The index of a tree is the filter of the flat list of all its entries, at any depth and also below
      entries that are no functions, up to the first error. */
  lemma {:induction false} BuildIsCollected(u: Unit, names: Names, unit: nat, t: Tree)
    requires Proper(u, t)
    ensures Builds(BuildOf(u, names, unit, t), Collected(u, names, unit, Preorder(t)))
    decreases t, 1
  {
    var all := [t.entry] + PreorderOf(t.kids);
    assert all[0] == t.entry && all[1..] == PreorderOf(t.kids);
    BuildKidsIsCollected(u, names, unit, t.kids);
    var own := Own(u, names, unit, t.entry);
    assert Builds(OwnBuilt(u, names, unit, t.entry), own);
    var kids := if HasChildren(u, t) then BuildKids(u, names, unit, t.kids) else DONE;
    ThenBuilds(OwnBuilt(u, names, unit, t.entry), kids, own, Collected(u, names, unit, PreorderOf(t.kids)));
  }

  lemma {:induction false} BuildKidsIsCollected(u: Unit, names: Names, unit: nat, kids: seq<Tree>)
    requires AllProper(u, kids)
    ensures Builds(BuildKids(u, names, unit, kids), Collected(u, names, unit, PreorderOf(kids)))
    decreases kids, 0
  {
    if kids != [] {
      var first, rest := Collected(u, names, unit, Preorder(kids[0])), Collected(u, names, unit, PreorderOf(kids[1..]));
      BuildIsCollected(u, names, unit, kids[0]);
      BuildKidsIsCollected(u, names, unit, kids[1..]);
      CollectedAppend(u, names, unit, Preorder(kids[0]), PreorderOf(kids[1..]));
      var onward := Then(Built([], Cross(u, kids[0])), BuildKids(u, names, unit, kids[1..]));
      ThenBuilds(Built([], Cross(u, kids[0])), BuildKids(u, names, unit, kids[1..]), [], rest);
      assert [] + rest == rest && [] + (first + rest) == first + rest;
      ThenBuilds(BuildOf(u, names, unit, kids[0]), onward, first, rest);
      ThenBuilds(ParsedBuilt(u, kids[0]), Then(BuildOf(u, names, unit, kids[0]), onward), [], first + rest);
    }
  }

  /** The functions of all units, unit by unit. */
  function AllFunctions(units: seq<Unit>, names: Names, trees: seq<Tree>, n: nat): seq<IndexEntry>
    requires n <= |units| == |trees|
  {
    if n == 0 then []
    else AllFunctions(units, names, trees, n - 1) + Collected(units[n - 1], names, n - 1, Preorder(trees[n - 1]))
  }

  /** The build over all units, root entry by root entry. */
  function BuildAll(units: seq<Unit>, names: Names, trees: seq<Tree>, n: nat): Built
    requires n <= |units| == |trees|
  {
    if n == 0 then DONE
    else
      Then(BuildAll(units, names, trees, n - 1),
           Then(ParsedBuilt(units[n - 1], trees[n - 1]), BuildOf(units[n - 1], names, n - 1, trees[n - 1])))
  }

  /** The bytes of the first `n` units hold trees of entries that start at their roots. */
  ghost predicate AllLaid(units: seq<Unit>, roots: seq<nat>, trees: seq<Tree>, n: nat)
    requires n <= |units| == |roots| == |trees|
  {
    n == 0 || (Laid(units[n - 1], trees[n - 1]) && trees[n - 1].entry.pos == roots[n - 1] && AllLaid(units, roots, trees, n - 1))
  }

  lemma {:induction false} UnitLaid(units: seq<Unit>, roots: seq<nat>, trees: seq<Tree>, n: nat, i: nat)
    requires i < n <= |units| == |roots| == |trees| && AllLaid(units, roots, trees, n)
    ensures Laid(units[i], trees[i]) && trees[i].entry.pos == roots[i]
  {
    if i < n - 1 {
      UnitLaid(units, roots, trees, n - 1, i);
    }
  }

  lemma {:induction false} BuildAllIsCollected(units: seq<Unit>, roots: seq<nat>, names: Names, trees: seq<Tree>, n: nat)
    requires n <= |units| == |roots| == |trees| && AllLaid(units, roots, trees, n)
    ensures Builds(BuildAll(units, names, trees, n), AllFunctions(units, names, trees, n))
  {
    if n > 0 {
      BuildAllIsCollected(units, roots, names, trees, n - 1);
      LaidIsProper(units[n - 1], trees[n - 1]);
      BuildIsCollected(units[n - 1], names, n - 1, trees[n - 1]);
      var own := Collected(units[n - 1], names, n - 1, Preorder(trees[n - 1]));
      var b := BuildOf(units[n - 1], names, n - 1, trees[n - 1]);
      ThenBuilds(ParsedBuilt(units[n - 1], trees[n - 1]), b, [], own);
      assert [] + own == own;
      ThenBuilds(BuildAll(units, names, trees, n - 1), Then(ParsedBuilt(units[n - 1], trees[n - 1]), b), AllFunctions(units, names, trees, n - 1), own);
    }
  }

  // ----- Queries -----

  /** The index and the outcome of `index()`, given what a build comes to: a non-empty index is taken as it
      is. */
  function Indexed(index: seq<IndexEntry>, all: Built): Built {
    if index != [] then Built(index, None) else all
  }

  /** The index after `n` queries. */
  function AfterQueries(all: Built, n: nat): seq<IndexEntry> {
    if n == 0 then [] else Indexed(AfterQueries(all, n - 1), all).entries
  }

  /** The outcome of query `n`. */
  function QueryError(all: Built, n: nat): Option<Error> {
    Indexed(AfterQueries(all, n), all).error
  }

  /** After any queries, failed ones included, the index is what the first build added before its error, if it
      had one. The first query reports the error, and so does a later one if and only if nothing had been
      added: otherwise the partial index is used in silence. */
  lemma {:induction false} QueriesExactly(all: Built, n: nat)
    ensures AfterQueries(all, n + 1) == all.entries
    ensures QueryError(all, n) == if n == 0 || all.entries == [] then all.error else None
  {
    if n > 0 {
      QueriesExactly(all, n - 1);
    }
  }

  // ----- The index as an object -----

  /** The outcome `r` and the change of the index are those of the build. */
  predicate Adds(before: seq<IndexEntry>, after: seq<IndexEntry>, b: Built, r: Result<()>) {
    after == before + b.entries && r == if b.error.Some? then Err(b.error.value) else Ok(())
  }

  class Dwarf {
    const units: seq<Unit>
    const roots: seq<nat>
    const names: Names
    var index: seq<IndexEntry>

    constructor (units: seq<Unit>, roots: seq<nat>, names: Names)
      ensures this.units == units && this.roots == roots && this.names == names && index == []
    {
      this.units, this.roots, this.names := units, roots, names;
      index := [];
    }

    /** The index is empty, or what a build adds. */
    ghost predicate Valid(trees: seq<Tree>)
      reads this
    {
      && |units| == |roots| == |trees| && AllLaid(units, roots, trees, |units|)
      && (index == [] || index == BuildAll(units, names, trees, |units|).entries)
    }

    /** `index_die`: the entry itself, then its children by the iterator. */
    method IndexDie(unit: nat, d: Die, ghost t: Tree) returns (r: Result<()>)
      requires unit < |units| && Laid(units[unit], t) && d == t.entry && !Refused(units[unit], t)
      modifies this`index
      ensures Adds(old(index), index, BuildOf(units[unit], names, unit, t), r)
      decreases t, 2
    {
      var u := units[unit];
      var own :- IndexOwn(unit, d);
      if u.abbrevs[d.code].hasChildren {
        r := IndexChildren(unit, d, t);
      } else {
        r := Ok(());
      }
      ghost var kids := if HasChildren(u, t) then BuildKids(u, names, unit, t.kids) else DONE;
      assert old(index) + Own(u, names, unit, d) + kids.entries == old(index) + (Own(u, names, unit, d) + kids.entries);
    }

    method IndexOwn(unit: nat, d: Die) returns (r: Result<()>)
      requires unit < |units| && d.Entry? && d.code in units[unit].abbrevs
      modifies this`index
      ensures Adds(old(index), index, OwnBuilt(units[unit], names, unit, d), r)
    {
      if IsFunction(units[unit].abbrevs[d.code]) {
        var name :- names(unit, d.pos);
        if name.Some? {
          index := index + [IndexEntry(name.value, unit, d.pos)];
        }
      }
      r := Ok(());
    }

    method IndexChildren(unit: nat, d: Die, ghost t: Tree) returns (r: Result<()>)
      requires unit < |units| && Laid(units[unit], t) && d == t.entry && HasChildren(units[unit], t)
      modifies this`index
      ensures Adds(old(index), index, BuildKids(units[unit], names, unit, t.kids), r)
      decreases t, 1
    {
      ghost var before, total := index, BuildKids(units[unit], names, unit, t.kids);
      ghost var k, added := 0, [];
      FirstError(units[unit], names, unit, t, total);
      var child :- FirstChild(units[unit], d, t);
      while child.Entry?
        invariant k <= |t.kids| && Child(units[unit], t, k) == Ok(child) && (child.Entry? <==> k < |t.kids|)
        invariant index == before + added && SoFar(units[unit], names, unit, t, k, added, total)
        decreases |t.kids| - k
      {
        var next;
        next, added := IndexChild(unit, child, t, k, before, added, total);
        child :- next;
        k := k + 1;
      }
      AllBuilt(units[unit], names, unit, t, added, total);
      r := Ok(());
    }

    /** One child indexed, and the iterator moved on. */
    method IndexChild(unit: nat, d: Die, ghost t: Tree, ghost k: nat, ghost before: seq<IndexEntry>, ghost added: seq<IndexEntry>, ghost total: Built)
      returns (child: Result<Die>, ghost more: seq<IndexEntry>)
      requires unit < |units| && Laid(units[unit], t) && HasChildren(units[unit], t)
      requires k < |t.kids| && Child(units[unit], t, k) == Ok(d)
      requires index == before + added && SoFar(units[unit], names, unit, t, k, added, total)
      modifies this`index
      ensures child.Err? ==> Adds(before, index, total, Err(child.error))
      ensures child.Ok? ==> child == Child(units[unit], t, k + 1) && (child.value.Entry? <==> k + 1 < |t.kids|)
      ensures child.Ok? ==> index == before + more && SoFar(units[unit], names, unit, t, k + 1, more, total)
      decreases t, 0
    {
      more := added + BuildOf(units[unit], names, unit, t.kids[k]).entries;
      ParseNext(units[unit], t, k);
      var indexed := IndexDie(unit, d, t.kids[k]);
      ChildIndexed(units[unit], names, unit, t, k, added, total, before, index, indexed);
      if indexed.Err? {
        return Err(indexed.error), more;
      }
      child := NextChild(units[unit], d, t, k);
    }

    /** `index`: a non-empty index is complete in its own eyes. */
    method Index(ghost trees: seq<Tree>) returns (r: Result<()>)
      requires Valid(trees)
      modifies this`index
      ensures Valid(trees)
      ensures var out := Indexed(old(index), BuildAll(units, names, trees, |units|));
              index == out.entries && r == if out.error.Some? then Err(out.error.value) else Ok(())
    {
      if index != [] {
        return Ok(());
      }
      r := IndexUnits(trees);
    }

    method IndexUnits(ghost trees: seq<Tree>) returns (r: Result<()>)
      requires |units| == |roots| == |trees| && AllLaid(units, roots, trees, |units|) && index == []
      modifies this`index
      ensures Adds([], index, BuildAll(units, names, trees, |units|), r)
    {
      for i := 0 to |units|
        invariant Adds([], index, BuildAll(units, names, trees, i), Ok(()))
      {
        UnitLaid(units, roots, trees, |units|, i);
        var done := IndexUnit(i, trees);
        if done.Err? {
          StaysFailed(units, names, trees, i + 1, |units|);
          return done;
        }
      }
      r := Ok(());
    }

    method IndexUnit(unit: nat, ghost trees: seq<Tree>) returns (r: Result<()>)
      requires unit < |units| == |roots| == |trees| && Laid(units[unit], trees[unit]) && trees[unit].entry.pos == roots[unit]
      requires Adds([], index, BuildAll(units, names, trees, unit), Ok(()))
      modifies this`index
      ensures Adds([], index, BuildAll(units, names, trees, unit + 1), r)
    {
      ghost var t, before := trees[unit], index;
      ParseLaid(units[unit], t);
      if Refused(units[unit], t) {
        RootRefused(units, names, trees, unit, index);
      }
      var root :- ParseDie(units[unit], roots[unit]);
      r := IndexDie(unit, root, t);
      UnitIndexed(units, names, trees, unit, before, index, r);
    }

    /** `find_functions`: after any earlier queries, exactly the functions of that name in the index. */
    method FindFunctions(name: seq<byte>, ghost trees: seq<Tree>) returns (found: Result<seq<IndexEntry>>)
      requires Valid(trees)
      modifies this`index
      ensures Valid(trees)
      ensures var out := Indexed(old(index), BuildAll(units, names, trees, |units|));
              && index == out.entries
              && (out.error.Some? ==> found == Err(out.error.value))
              && (out.error.None? ==> found.Ok? && multiset(found.value) == multiset(Named(out.entries, name)))
    {
      var _ :- Index(trees);
      var named := WithName(index, name);
      found := Ok(named);
    }

    /** The entry is parsed again; it contains the address, and is a subprogram. */
    function Holds(e: IndexEntry, q: Query): Result<bool> {
      if e.unit >= |units| || e.unit >= |roots| then Err(NotFound)
      else
        var d :- DieAt(units[e.unit], e.pos);
        if d.Null? then Err(UnknownAbbreviation)
        else
          var contains :- ContainsAt(units[e.unit], q.(root := roots[e.unit]), d);
          Ok(contains && units[e.unit].abbrevs[d.code].tag == TAG_SUBPROGRAM)
    }

    /** `function_containing_address`: the index is walked in an order left open, up to a subprogram that
        contains the address or an entry for which that question throws. */
    method FunctionContaining(q: Query, ghost trees: seq<Tree>) returns (r: Result<Option<IndexEntry>>)
      requires Valid(trees)
      modifies this`index
      ensures Valid(trees)
      ensures var out := Indexed(old(index), BuildAll(units, names, trees, |units|));
              && index == out.entries
              && (out.error.Some? ==> r == Err(out.error.value))
              && (out.error.None? ==> Answers(out.entries, q, r))
    {
      var _ :- Index(trees);
      r := Search(index, q);
    }

    /** The answer is one that some order gives: an entry that holds the address, none when no entry does, or
        the error of an entry. */
    ghost predicate Answers(entries: seq<IndexEntry>, q: Query, r: Result<Option<IndexEntry>>) {
      match r
      case Ok(Some(e)) => e in entries && Holds(e, q) == Ok(true)
      case Ok(None) => forall e :: e in entries ==> Holds(e, q) == Ok(false)
      case Err(x) => exists e :: e in entries && Holds(e, q) == Err(x)
    }

    method Search(entries: seq<IndexEntry>, q: Query) returns (r: Result<Option<IndexEntry>>)
      ensures Answers(entries, q, r)
    {
      var todo := set e | e in entries;
      while todo != {}
        invariant forall e :: e in todo ==> e in entries
        invariant forall e :: e in entries && e !in todo ==> Holds(e, q) == Ok(false)
        decreases todo
      {
        var e := Pick(todo);
        var holds := Holds(e, q);
        if holds.Err? {
          return Err(holds.error);
        }
        if holds.value {
          return Ok(Some(e));
        }
        todo := todo - {e};
      }
      r := Ok(None);
    }

    /** The stack for the answer of the search: down from a laid-out subtree for an entry, empty for none. */
    ghost predicate Stacked(q: Query, answer: Result<Option<IndexEntry>>, r: Result<seq<Die>>) {
      match answer
      case Err(x) => r == Err(x)
      case Ok(None) => r == Ok([])
      case Ok(Some(e)) =>
        e.unit < |units| && e.unit < |roots|
        && exists t: Tree :: IsTreeOf(e, t) && r == StackOf(units[e.unit], q.(root := roots[e.unit]), t)
    }

    ghost predicate IsTreeOf(e: IndexEntry, t: Tree) {
      e.unit < |units| && Laid(units[e.unit], t) && t.entry.pos == e.pos
    }

    /** A possible outcome of `inline_stack_at_address`, given the index and the outcome of `index()`. */
    ghost predicate StackAnswers(out: Built, q: Query, r: Result<seq<Die>>) {
      if out.error.Some? then r == Err(out.error.value)
      else exists answer :: Answers(out.entries, q, answer) && Stacked(q, answer, r)
    }

    /** `inline_stack_at_address`: the stack of the function found, down from its place in the tree. */
    method InlineStackAt(q: Query, ghost trees: seq<Tree>) returns (stack: Result<seq<Die>>)
      requires Valid(trees)
      modifies this`index
      ensures Valid(trees)
      ensures var out := Indexed(old(index), BuildAll(units, names, trees, |units|));
              index == out.entries && StackAnswers(out, q, stack)
    {
      ghost var out := Indexed(index, BuildAll(units, names, trees, |units|));
      var found := FunctionContaining(q, trees);
      if found.Err? {
        assert out.error.None? ==> Stacked(q, found, Err(found.error));
        return Err(found.error);
      }
      if found.value.None? {
        assert Stacked(q, found, Ok([]));
        return Ok([]);
      }
      var e := found.value.value;
      ghost var t := EntryHasTree(units, roots, names, trees, |units|, e);
      ParseLaid(units[e.unit], t);
      var d := ParseDie(units[e.unit], e.pos);
      stack := InlineStack(units[e.unit], q.(root := roots[e.unit]), d.value, t);
      assert IsTreeOf(e, t);
      assert Stacked(q, found, stack);
    }

    /** The entry has a low address and no ranges. */
    predicate LowOnly(e: IndexEntry) {
      && e.unit < |units| && e.unit < |roots|
      && DieAt(units[e.unit], e.pos).Ok? && DieAt(units[e.unit], e.pos).value.Entry?
      && AttrOf(units[e.unit], DieAt(units[e.unit], e.pos).value, AT_RANGES).None?
      && AttrOf(units[e.unit], DieAt(units[e.unit], e.pos).value, AT_LOW_PC).Some?
    }
  }

  // ----- Steps of the build -----

  /** How the loop over the children goes on after child `k`. */
  function Continued(u: Unit, names: Names, unit: nat, t: Tree, k: nat): Result<Die>
    requires k < |t.kids|
  {
    var own := BuildOf(u, names, unit, t.kids[k]);
    if own.error.Some? then Err(own.error.value)
    else if Cross(u, t.kids[k]).Some? then Err(Cross(u, t.kids[k]).value)
    else Child(u, t, k + 1)
  }

  lemma ThenAppend(a: seq<IndexEntry>, b: seq<IndexEntry>, rest: Built)
    ensures Then(Built(a, None), Then(Built(b, None), rest)) == Then(Built(a + b, None), rest)
    ensures Then(DONE, rest) == rest
  {
    assert a + (b + rest.entries) == (a + b) + rest.entries && [] + rest.entries == rest.entries;
  }

  /** The build of all children is what has been added so far and the build of those from child `k` on. */
  predicate SoFar(u: Unit, names: Names, unit: nat, t: Tree, k: nat, added: seq<IndexEntry>, total: Built)
    requires k <= |t.kids|
  {
    total == Then(Built(added, None), BuildKids(u, names, unit, t.kids[k..]))
  }

  lemma FirstError(u: Unit, names: Names, unit: nat, t: Tree, total: Built)
    requires total == BuildKids(u, names, unit, t.kids)
    ensures SoFar(u, names, unit, t, 0, [], total)
    ensures t.kids != [] && Refused(u, t.kids[0]) ==> total == Built([], Some(UnknownForm))
  {
    assert t.kids[0..] == t.kids;
    ThenAppend([], [], total);
  }

  lemma AllBuilt(u: Unit, names: Names, unit: nat, t: Tree, added: seq<IndexEntry>, total: Built)
    requires SoFar(u, names, unit, t, |t.kids|, added, total)
    ensures total == Built(added, None)
  {
    assert t.kids[|t.kids|..] == [] && added + [] == added;
  }

  lemma BuildStep(u: Unit, names: Names, unit: nat, t: Tree, k: nat, added: seq<IndexEntry>, total: Built)
    requires k < |t.kids| && !Refused(u, t.kids[k]) && SoFar(u, names, unit, t, k, added, total)
    ensures var own, next := BuildOf(u, names, unit, t.kids[k]).entries, Continued(u, names, unit, t, k);
            if next.Err? then total == Built(added + own, Some(next.error)) else SoFar(u, names, unit, t, k + 1, added + own, total)
  {
    var own, rest := BuildOf(u, names, unit, t.kids[k]), BuildKids(u, names, unit, t.kids[k + 1..]);
    assert t.kids[k..][1..] == t.kids[k + 1..];
    var onward := Then(Built([], Cross(u, t.kids[k])), rest);
    ThenAppend([], [], Then(own, onward));
    ThenAppend([], [], rest);
    ThenAppend(added, own.entries, rest);
    assert own.entries + [] == own.entries;
  }

  lemma RootRefused(units: seq<Unit>, names: Names, trees: seq<Tree>, n: nat, index: seq<IndexEntry>)
    requires n < |units| == |trees| && Refused(units[n], trees[n]) && Adds([], index, BuildAll(units, names, trees, n), Ok(()))
    ensures Adds([], index, BuildAll(units, names, trees, n + 1), Err(UnknownForm))
  {
    assert index + [] == index;
  }

  lemma UnitIndexed(units: seq<Unit>, names: Names, trees: seq<Tree>, n: nat, before: seq<IndexEntry>, index: seq<IndexEntry>, r: Result<()>)
    requires n < |units| == |trees| && !Refused(units[n], trees[n]) && Adds([], before, BuildAll(units, names, trees, n), Ok(()))
    requires Adds(before, index, BuildOf(units[n], names, n, trees[n]), r)
    ensures Adds([], index, BuildAll(units, names, trees, n + 1), r)
  {
    AddsMore(BuildAll(units, names, trees, n), BuildOf(units[n], names, n, trees[n]), before, index, r);
  }

  lemma AddsMore(done: Built, more: Built, before: seq<IndexEntry>, index: seq<IndexEntry>, r: Result<()>)
    requires Adds([], before, done, Ok(())) && Adds(before, index, more, r)
    ensures Adds([], index, Then(done, Then(DONE, more)), r)
  {
    assert [] + more.entries == more.entries && [] + before == before;
  }

  /** Child `k` has been indexed, from `before` and what was added before it. */
  lemma ChildIndexed(u: Unit, names: Names, unit: nat, t: Tree, k: nat, added: seq<IndexEntry>, total: Built,
                     before: seq<IndexEntry>, after: seq<IndexEntry>, r: Result<()>)
    requires k < |t.kids| && !Refused(u, t.kids[k]) && SoFar(u, names, unit, t, k, added, total)
    requires Adds(before + added, after, BuildOf(u, names, unit, t.kids[k]), r)
    ensures var more, next := added + BuildOf(u, names, unit, t.kids[k]).entries, Continued(u, names, unit, t, k);
            && after == before + more && (r.Err? ==> next == Err(r.error))
            && (r.Ok? ==> next == if Cross(u, t.kids[k]).Some? then Err(Cross(u, t.kids[k]).value) else Child(u, t, k + 1))
            && (next.Err? ==> Adds(before, after, total, Err(next.error)))
            && (next.Ok? ==> SoFar(u, names, unit, t, k + 1, more, total))
  {
    var own := BuildOf(u, names, unit, t.kids[k]).entries;
    BuildStep(u, names, unit, t, k, added, total);
    assert (before + added) + own == before + (added + own);
  }

  lemma {:induction false} StaysFailed(units: seq<Unit>, names: Names, trees: seq<Tree>, i: nat, n: nat)
    requires i <= n <= |units| == |trees| && BuildAll(units, names, trees, i).error.Some?
    ensures BuildAll(units, names, trees, n) == BuildAll(units, names, trees, i)
    decreases n
  {
    if i < n {
      StaysFailed(units, names, trees, i, n - 1);
    }
  }

  function Named(entries: seq<IndexEntry>, name: seq<byte>): seq<IndexEntry> {
    if entries == [] then []
    else
      var last := |entries| - 1;
      Named(entries[..last], name) + if entries[last].name == name then [entries[last]] else []
  }

  /** Every entry of that name is among them as often as in the index, and no other. */
  lemma {:induction false} NamedExactly(entries: seq<IndexEntry>, name: seq<byte>, e: IndexEntry)
    ensures multiset(Named(entries, name))[e] == if e.name == name then multiset(entries)[e] else 0
    decreases |entries|
  {
    if entries != [] {
      var last := |entries| - 1;
      NamedExactly(entries[..last], name, e);
      assert entries == entries[..last] + [entries[last]];
    }
  }

  method WithName(entries: seq<IndexEntry>, name: seq<byte>) returns (found: seq<IndexEntry>)
    ensures found == Named(entries, name)
  {
    found := [];
    for i := 0 to |entries|
      invariant found == Named(entries[..i], name)
    {
      assert entries[..i + 1][..i] == entries[..i];
      if entries[i].name == name {
        found := found + [entries[i]];
      }
    }
    assert entries[..|entries|] == entries;
  }

  // ----- The tree of an indexed entry -----

  /** An entry of the index has been parsed, and its place in the bytes holds its whole subtree. */
  lemma {:induction false} FindTree(u: Unit, names: Names, unit: nat, t: Tree, e: IndexEntry) returns (sub: Tree)
    requires Laid(u, t) && !Refused(u, t) && e in BuildOf(u, names, unit, t).entries
    ensures Laid(u, sub) && !Refused(u, sub) && sub.entry.pos == e.pos && e.unit == unit
    decreases t, 1
  {
    if e in Own(u, names, unit, t.entry) {
      sub := t;
    } else {
      sub := FindTreeBelow(u, names, unit, t.kids, t.entry.next, t.end - 1, e);
    }
  }

  lemma {:induction false} FindTreeBelow(u: Unit, names: Names, unit: nat, kids: seq<Tree>, from: nat, to: nat, e: IndexEntry) returns (sub: Tree)
    requires KidsLaid(u, kids, from, to) && e in BuildKids(u, names, unit, kids).entries
    ensures Laid(u, sub) && !Refused(u, sub) && sub.entry.pos == e.pos && e.unit == unit
    decreases kids, 0
  {
    if e in BuildOf(u, names, unit, kids[0]).entries {
      sub := FindTree(u, names, unit, kids[0], e);
    } else {
      sub := FindTreeBelow(u, names, unit, kids[1..], kids[0].end, to, e);
    }
  }

  lemma OneUnitBuilt(units: seq<Unit>, names: Names, trees: seq<Tree>, n: nat, e: IndexEntry)
    requires n <= |units| == |trees| && e in BuildAll(units, names, trees, n).entries
    ensures n > 0
    ensures e in BuildAll(units, names, trees, n - 1).entries
            || (e in BuildOf(units[n - 1], names, n - 1, trees[n - 1]).entries && !Refused(units[n - 1], trees[n - 1]))
  {
  }

  /** Unit `k` adds the entry. */
  predicate AddsEntry(units: seq<Unit>, names: Names, trees: seq<Tree>, e: IndexEntry, k: nat) {
    k < |units| == |trees| && e in BuildOf(units[k], names, k, trees[k]).entries && !Refused(units[k], trees[k])
  }

  /** The first `k` units do. */
  predicate HaveEntry(units: seq<Unit>, names: Names, trees: seq<Tree>, e: IndexEntry, k: nat) {
    k <= |units| == |trees| && e in BuildAll(units, names, trees, k).entries
  }

  lemma EachUnitAdds(units: seq<Unit>, names: Names, trees: seq<Tree>, e: IndexEntry, has: nat -> bool, adds: nat -> bool)
    requires forall k: nat :: has(k) == HaveEntry(units, names, trees, e, k)
    requires forall k: nat :: adds(k) == AddsEntry(units, names, trees, e, k)
    ensures !has(0) && forall k: nat :: 0 < k && has(k) ==> has(k - 1) || adds(k - 1)
  {
    assert !HaveEntry(units, names, trees, e, 0);
    forall k: nat | 0 < k && has(k)
      ensures has(k - 1) || adds(k - 1)
    {
      OneUnitBuilt(units, names, trees, k, e);
    }
  }

  lemma {:induction false} FirstThatAdds(n: nat, has: nat -> bool, adds: nat -> bool) returns (i: nat)
    requires has(n) && !has(0) && forall k: nat :: 0 < k && has(k) ==> has(k - 1) || adds(k - 1)
    ensures i < n && adds(i)
    decreases n
  {
    if has(n - 1) {
      i := FirstThatAdds(n - 1, has, adds);
    } else {
      i := n - 1;
    }
  }

  lemma UnitOfEntry(units: seq<Unit>, names: Names, trees: seq<Tree>, n: nat, e: IndexEntry) returns (i: nat)
    requires n <= |units| == |trees| && e in BuildAll(units, names, trees, n).entries
    ensures i < n && e in BuildOf(units[i], names, i, trees[i]).entries && !Refused(units[i], trees[i])
  {
    var has, adds := (k: nat) => HaveEntry(units, names, trees, e, k), (k: nat) => AddsEntry(units, names, trees, e, k);
    EachUnitAdds(units, names, trees, e, has, adds);
    i := FirstThatAdds(n, has, adds);
  }

  lemma EntryHasTree(units: seq<Unit>, roots: seq<nat>, names: Names, trees: seq<Tree>, n: nat, e: IndexEntry) returns (sub: Tree)
    requires n <= |units| == |roots| == |trees| && AllLaid(units, roots, trees, n)
    requires e in BuildAll(units, names, trees, n).entries
    ensures e.unit < n && Laid(units[e.unit], sub) && !Refused(units[e.unit], sub) && sub.entry.pos == e.pos
  {
    var i := UnitOfEntry(units, names, trees, n, e);
    UnitLaid(units, roots, trees, n, i);
    sub := FindTree(units[i], names, i, trees[i], e);
  }

  /** An entry holds an address if and only if it is a subprogram (0x2e) that contains it, and asking it throws what
      parsing it or asking for its addresses throws. */
  lemma HoldsExactly(dwarf: Dwarf, q: Query, e: IndexEntry)
    requires e.unit < |dwarf.units| && e.unit < |dwarf.roots|
    requires DieAt(dwarf.units[e.unit], e.pos).Ok? && DieAt(dwarf.units[e.unit], e.pos).value.Entry?
    ensures var u, d := dwarf.units[e.unit], DieAt(dwarf.units[e.unit], e.pos).value;
            var contains, holds := ContainsAt(u, q.(root := dwarf.roots[e.unit]), d), dwarf.Holds(e, q);
            && (holds == Ok(true) <==> contains == Ok(true) && u.abbrevs[d.code].tag == 0x2e)
            && (holds.Err? <==> contains.Err?) && (holds.Err? ==> holds.error == contains.error)
  {
  }

  /** A function with a low address and no ranges is one for which the search throws. As the entry has been parsed,
      the low address is not of the form of an address. */
  lemma LowAddressThrows(dwarf: Dwarf, q: Query, e: IndexEntry)
    requires dwarf.LowOnly(e)
    ensures dwarf.Holds(e, q) == Err(WrongForm)
  {
    NoAddresses(dwarf.units[e.unit], e.pos, AT_LOW_PC);
  }

  /** With an index that failed to build, or one of such functions only, asking for the inline stack at an address
      throws, whatever the address. */
  lemma NoStackAnywhere(dwarf: Dwarf, out: Built, q: Query, r: Result<seq<Die>>)
    requires out.error.Some? || (out.entries != [] && forall e :: e in out.entries ==> dwarf.LowOnly(e))
    requires dwarf.StackAnswers(out, q, r)
    ensures r.Err?
  {
    if out.error.None? {
      var answer :| dwarf.Answers(out.entries, q, answer) && dwarf.Stacked(q, answer, r);
      LowAddressThrows(dwarf, q, out.entries[0]);
      if answer.Ok? && answer.value.Some? {
        LowAddressThrows(dwarf, q, answer.value.value);
      }
    }
  }

  // ----- The inline stack -----

  predicate IsInlined(u: Unit, t: Tree) {
    t.entry.Entry? && t.entry.code in u.abbrevs && u.abbrevs[t.entry.code].tag == TAG_INLINED_SUBROUTINE
  }

  function Contains(u: Unit, q: Query, t: Tree): Result<bool> {
    if Parsed(u, t.entry) then ContainsAt(u, q, t.entry) else Err(UnknownAbbreviation)
  }

  /** The first child, from the `from`-th on, that is an inlined subroutine around the address, as the iterator
      comes to it. */
  function FirstInlined(u: Unit, q: Query, kids: seq<Tree>, from: nat): (r: Result<Option<nat>>)
    requires from <= |kids|
    ensures r.Ok? && r.value.Some? ==> from <= r.value.value < |kids| && !Refused(u, kids[r.value.value])
    ensures r.Ok? && r.value.Some? ==> IsInlined(u, kids[r.value.value]) && Contains(u, q, kids[r.value.value]) == Ok(true)
    ensures r.Ok? && r.value.None? ==> forall i :: from <= i < |kids| && IsInlined(u, kids[i]) ==> Contains(u, q, kids[i]) == Ok(false)
    decreases |kids| - from
  {
    if from == |kids| then Ok(None)
    else if Refused(u, kids[from]) then Err(UnknownForm)
    else
      var contains :- if IsInlined(u, kids[from]) then Contains(u, q, kids[from]) else Ok(false);
      if contains then Ok(Some(from))
      else if Cross(u, kids[from]).Some? then Err(Cross(u, kids[from]).value)
      else FirstInlined(u, q, kids, from + 1)
  }

  function NextInlined(u: Unit, q: Query, t: Tree): (r: Result<Option<nat>>)
    ensures r.Ok? && r.value.Some? ==> r.value.value < |t.kids| && HasChildren(u, t) && !Refused(u, t.kids[r.value.value])
  {
    if HasChildren(u, t) then FirstInlined(u, q, t.kids, 0) else Ok(None)
  }

  /** The chain from a function down to the innermost inlined subroutine. */
  function Chain(u: Unit, q: Query, t: Tree): Result<seq<Tree>> {
    var i :- NextInlined(u, q, t);
    if i.None? then Ok([t])
    else
      var rest :- Chain(u, q, t.kids[i.value]);
      Ok([t] + rest)
  }

  function StackOf(u: Unit, q: Query, t: Tree): Result<seq<Die>> {
    var chain :- Chain(u, q, t);
    Ok(Entries(chain))
  }

  /** Each element of the chain is an inlined subroutine around the address among the children of the one
      before. */
  predicate Linked(u: Unit, q: Query, chain: seq<Tree>) {
    forall i :: 0 < i < |chain| ==>
      chain[i] in chain[i - 1].kids && IsInlined(u, chain[i]) && Contains(u, q, chain[i]) == Ok(true)
  }

  lemma LinkedCons(u: Unit, q: Query, t: Tree, rest: seq<Tree>)
    requires rest != [] && Linked(u, q, rest)
    requires rest[0] in t.kids && IsInlined(u, rest[0]) && Contains(u, q, rest[0]) == Ok(true)
    ensures Linked(u, q, [t] + rest)
  {
    var chain := [t] + rest;
    forall i | 0 < i < |chain|
      ensures chain[i] in chain[i - 1].kids && IsInlined(u, chain[i]) && Contains(u, q, chain[i]) == Ok(true)
    {
      assert chain[i] == rest[i - 1] && (i > 1 ==> chain[i - 1] == rest[i - 2]);
    }
  }

  /** The chain runs from the function, parent to child, through inlined subroutines that all contain the
      address, and cannot be continued. */
  lemma {:induction false} ChainIsMaximal(u: Unit, q: Query, t: Tree)
    requires Chain(u, q, t).Ok? && Proper(u, t)
    ensures var chain := Chain(u, q, t).value;
            && |chain| > 0 && chain[0] == t && Linked(u, q, chain)
            && (forall k :: k in chain[|chain| - 1].kids && IsInlined(u, k) ==> Contains(u, q, k) == Ok(false))
  {
    var i := NextInlined(u, q, t).value;
    if i.Some? {
      var rest := Chain(u, q, t.kids[i.value]).value;
      KidIsProper(u, t.kids, i.value);
      ChainIsMaximal(u, q, t.kids[i.value]);
      LinkedCons(u, q, t, rest);
    }
  }

  /** A parsed entry that is an inlined subroutine (0x1d) and contains the address. */
  predicate IsAround(u: Unit, q: Query, d: Die) {
    Parsed(u, d) && u.abbrevs[d.code].tag == 0x1d && ContainsAt(u, q, d) == Ok(true)
  }

  predicate IsKid(parent: Tree, t: Tree) {
    t in parent.kids
  }

  /** A path of subtrees from the function down, whose entries these are, each but the first an inlined subroutine
      around the address, with none such below the last. */
  ghost predicate IsInlinePath(u: Unit, q: Query, t: Tree, stack: seq<Die>, path: seq<Tree>) {
    && |path| == |stack| > 0 && path[0] == t
    && (forall i :: 0 <= i < |path| ==> path[i].entry == stack[i])
    && (forall i :: 0 < i < |path| ==> IsKid(path[i - 1], path[i]) && IsAround(u, q, path[i].entry))
    && (forall k :: IsKid(path[|path| - 1], k) ==> !IsAround(u, q, k.entry))
  }

  /** The inline stack shows the entries of such a path. */
  lemma StackIsInlinePath(u: Unit, q: Query, t: Tree)
    requires StackOf(u, q, t).Ok? && Proper(u, t)
    ensures exists path :: IsInlinePath(u, q, t, StackOf(u, q, t).value, path)
  {
    ChainIsMaximal(u, q, t);
    MaximalIsInlinePath(u, q, t, Entries(Chain(u, q, t).value), Chain(u, q, t).value);
  }

  lemma MaximalIsInlinePath(u: Unit, q: Query, t: Tree, stack: seq<Die>, path: seq<Tree>)
    requires |path| == |stack| > 0 && path[0] == t && Linked(u, q, path)
    requires forall i :: 0 <= i < |path| ==> path[i].entry == stack[i]
    requires forall k :: k in path[|path| - 1].kids && IsInlined(u, k) ==> Contains(u, q, k) == Ok(false)
    ensures IsInlinePath(u, q, t, stack, path)
  {
    forall i | 0 < i < |path|
      ensures IsKid(path[i - 1], path[i]) && IsAround(u, q, path[i].entry)
    {
      AroundIsSeen(u, q, path[i]);
    }
    forall k | IsKid(path[|path| - 1], k)
      ensures !IsAround(u, q, k.entry)
    {
      AroundIsSeen(u, q, k);
    }
  }

  lemma AroundIsSeen(u: Unit, q: Query, t: Tree)
    ensures IsInlined(u, t) && Contains(u, q, t) == Ok(true) <==> IsAround(u, q, t.entry)
  {
  }

  lemma {:induction false} KidIsProper(u: Unit, kids: seq<Tree>, i: nat)
    requires AllProper(u, kids) && i < |kids|
    ensures Proper(u, kids[i])
  {
    if i > 0 {
      KidIsProper(u, kids[1..], i - 1);
    }
  }

  /** The search for the next inlined subroutine among the children. */
  method FindInlined(u: Unit, q: Query, d: Die, ghost t: Tree) returns (r: Result<Option<Die>>)
    requires Laid(u, t) && d == t.entry
    ensures r == NextEntry(u, q, t)
  {
    if !u.abbrevs[d.code].hasChildren {
      return Ok(None);
    }
    ghost var k := 0;
    ghost var all := FirstInlined(u, q, t.kids, 0);
    var child :- FirstChild(u, d, t);
    while child.Entry?
      invariant k <= |t.kids| && Child(u, t, k) == Ok(child) && (child.Entry? <==> k < |t.kids|)
      invariant all == FirstInlined(u, q, t.kids, k)
      decreases |t.kids| - k
    {
      ParseNext(u, t, k);
      InlinedStep(u, q, t.kids, k);
      if u.abbrevs[child.code].tag == TAG_INLINED_SUBROUTINE {
        var contains :- ContainsAt(u, q, child);
        if contains {
          return Ok(Some(child));
        }
      }
      child :- NextChild(u, child, t, k);
      k := k + 1;
    }
    r := Ok(None);
  }

  /** What the search comes to at child `k`, once it is parsed. */
  lemma InlinedStep(u: Unit, q: Query, kids: seq<Tree>, k: nat)
    requires k < |kids| && !Refused(u, kids[k]) && Parsed(u, kids[k].entry)
    ensures var asked := if u.abbrevs[kids[k].entry.code].tag == TAG_INLINED_SUBROUTINE then ContainsAt(u, q, kids[k].entry) else Ok(false);
            FirstInlined(u, q, kids, k) == if asked.Err? then Err(asked.error)
                                           else if asked.value then Ok(Some(k))
                                           else if Cross(u, kids[k]).Some? then Err(Cross(u, kids[k]).value)
                                           else FirstInlined(u, q, kids, k + 1)
  {
  }

  function NextEntry(u: Unit, q: Query, t: Tree): Result<Option<Die>> {
    var i :- NextInlined(u, q, t);
    Ok(if i.None? then None else Some(t.kids[i.value].entry))
  }

  /** `inline_stack_at_address` below the function: the loop ends, with the entries of the chain. */
  method InlineStack(u: Unit, q: Query, func: Die, ghost t: Tree) returns (stack: Result<seq<Die>>)
    requires Laid(u, t) && func == t.entry
    ensures stack == StackOf(u, q, t)
  {
    var dies := [func];
    ghost var node, above := t, [];
    var found :- FindInlined(u, q, func, t);
    AboveTwice([], [], Chain(u, q, t));
    EntriesOfChain([], t);
    while found.Some?
      invariant Laid(u, node) && NextEntry(u, q, node) == Ok(found)
      invariant Chain(u, q, t) == Above(above, Chain(u, q, node))
      invariant dies == Entries(above + [node])
      decreases node
    {
      ghost var i := NextInlined(u, q, node).value.value;
      ChainStep(u, q, node, above, i);
      KidLaid(u, node.kids, node.entry.next, node.end - 1, i);
      EntriesOfChain(above + [node], node.kids[i]);
      above, node := above + [node], node.kids[i];
      dies := dies + [found.value];
      found :- FindInlined(u, q, found.value, node);
    }
    stack := Ok(dies);
  }

  function Above(above: seq<Tree>, chain: Result<seq<Tree>>): Result<seq<Tree>> {
    if chain.Ok? then Ok(above + chain.value) else chain
  }

  lemma AboveTwice(a: seq<Tree>, b: seq<Tree>, chain: Result<seq<Tree>>)
    ensures Above(a, Above(b, chain)) == Above(a + b, chain) && Above([], chain) == chain
  {
    assert chain.Ok? ==> a + (b + chain.value) == a + b + chain.value && [] + chain.value == chain.value;
  }

  lemma ChainStep(u: Unit, q: Query, t: Tree, above: seq<Tree>, i: nat)
    requires NextInlined(u, q, t) == Ok(Some(i))
    ensures Above(above, Chain(u, q, t)) == Above(above + [t], Chain(u, q, t.kids[i]))
  {
    var rest := Chain(u, q, t.kids[i]);
    assert Chain(u, q, t) == Above([t], rest);
    AboveTwice(above, [t], rest);
  }

  lemma EntriesOfChain(above: seq<Tree>, t: Tree)
    ensures Entries(above + [t]) == Entries(above) + [t.entry]
  {
    assert (above + [t])[..|above|] == above;
  }
}
