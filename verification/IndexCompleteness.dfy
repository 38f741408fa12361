/** When building the function index fails, and when it is complete, by the entries of the trees. */
module IndexCompleteness {
  import opened Words
  import opened Dies
  import opened DieAddresses
  import opened FunctionIndex
  import opened Cursors
  import opened EntryNames
  import opened MeantNames

  // ----- The walk as a list -----

  /** The walk over a tree comes to an entry, and leaves a child with everything below it. */
  datatype Event = Enter(unit: nat, t: Tree) | Leave(unit: nat, t: Tree)

  function Events(u: Unit, unit: nat, t: Tree): seq<Event>
    decreases t, 1
  {
    [Enter(unit, t)] + if HasChildren(u, t) then KidEvents(u, unit, t.kids) else []
  }

  function KidEvents(u: Unit, unit: nat, kids: seq<Tree>): seq<Event>
    decreases kids, 0
  {
    if kids == [] then [] else Events(u, unit, kids[0]) + ([Leave(unit, kids[0])] + KidEvents(u, unit, kids[1..]))
  }

  /** All units, root by root. */
  function AllEvents(units: seq<Unit>, trees: seq<Tree>, n: nat): seq<Event>
    requires n <= |units| == |trees|
  {
    if n == 0 then [] else AllEvents(units, trees, n - 1) + Events(units[n - 1], n - 1, trees[n - 1])
  }

  predicate NameThrows(u: Unit, names: Names, unit: nat, d: Die) {
    d.Entry? && d.code in u.abbrevs && IsFunction(u.abbrevs[d.code]) && names(unit, d.pos).Err?
  }

  /** An entry cannot be parsed, or is a function whose name cannot be looked up; or the iterator cannot go on
      from a child, because its sibling reference is not followed. */
  predicate Fails(units: seq<Unit>, names: Names, e: Event) {
    e.unit < |units|
    && match e
       case Enter(unit, t) => Refused(units[unit], t) || NameThrows(units[unit], names, unit, t.entry)
       case Leave(unit, t) => Lost(units[unit], t)
  }

  /** The function that the walk comes to. */
  function Found(units: seq<Unit>, names: Names, e: Event): seq<IndexEntry> {
    if e.Enter? && e.unit < |units| then Own(units[e.unit], names, e.unit, e.t.entry) else []
  }

  function AllFound(units: seq<Unit>, names: Names, events: seq<Event>): seq<IndexEntry> {
    if events == [] then [] else Found(units, names, events[0]) + AllFound(units, names, events[1..])
  }

  function EventBuilt(units: seq<Unit>, names: Names, e: Event): Built
    requires e.unit < |units|
  {
    match e
    case Enter(unit, t) => Then(ParsedBuilt(units[unit], t), OwnBuilt(units[unit], names, unit, t.entry))
    case Leave(unit, t) => Built([], if Lost(units[unit], t) then Some(InvalidReference) else None)
  }

  predicate InUnits(units: seq<Unit>, events: seq<Event>) {
    forall i :: 0 <= i < |events| ==> events[i].unit < |units|
  }

  /** The build that goes through the list. */
  function Ran(units: seq<Unit>, names: Names, events: seq<Event>): Built
    requires InUnits(units, events)
  {
    if events == [] then DONE else Then(EventBuilt(units, names, events[0]), Ran(units, names, events[1..]))
  }

  lemma ThenAssociates(a: Built, b: Built, c: Built)
    ensures Then(Then(a, b), c) == Then(a, Then(b, c)) && Then(a, DONE) == a && Then(DONE, a) == a
  {
    assert (a.entries + b.entries) + c.entries == a.entries + (b.entries + c.entries);
    assert a.entries + [] == a.entries && [] + a.entries == a.entries;
  }

  lemma {:induction false} RanAppend(units: seq<Unit>, names: Names, a: seq<Event>, b: seq<Event>)
    requires InUnits(units, a) && InUnits(units, b)
    ensures InUnits(units, a + b) && Ran(units, names, a + b) == Then(Ran(units, names, a), Ran(units, names, b))
    decreases a
  {
    if a == [] {
      assert a + b == b;
      ThenAssociates(Ran(units, names, b), DONE, DONE);
    } else {
      assert (a + b)[1..] == a[1..] + b;
      RanAppend(units, names, a[1..], b);
      ThenAssociates(EventBuilt(units, names, a[0]), Ran(units, names, a[1..]), Ran(units, names, b));
    }
  }

  lemma {:induction false} FoundAppend(units: seq<Unit>, names: Names, a: seq<Event>, b: seq<Event>)
    ensures AllFound(units, names, a + b) == AllFound(units, names, a) + AllFound(units, names, b)
    decreases a
  {
    if a == [] {
      assert a + b == b;
    } else {
      assert (a + b)[1..] == a[1..] + b;
      FoundAppend(units, names, a[1..], b);
      var own, x, y := Found(units, names, a[0]), AllFound(units, names, a[1..]), AllFound(units, names, b);
      assert own + (x + y) == (own + x) + y;
    }
  }

  // ----- The build follows the walk -----

  lemma {:induction false} BuiltKidsCross(u: Unit, names: Names, unit: nat, kids: seq<Tree>)
    requires BuildKids(u, names, unit, kids).error.None?
    ensures CrossKids(u, kids) == None
    decreases kids
  {
    if kids != [] {
      BuiltKidsCross(u, names, unit, kids[1..]);
    }
  }

  /** Behind a subtree that has been built, the iterator can only fail by a reference that is not followed. */
  lemma BuiltCross(u: Unit, names: Names, unit: nat, t: Tree)
    requires BuildOf(u, names, unit, t).error.None?
    ensures Cross(u, t) == if Lost(u, t) then Some(InvalidReference) else None
  {
    if HasChildren(u, t) && Sibling(u, t).None? {
      BuiltKidsCross(u, names, unit, t.kids);
    }
  }

  lemma {:induction false} BuildIsRan(units: seq<Unit>, names: Names, unit: nat, t: Tree)
    requires unit < |units|
    ensures var events := Events(units[unit], unit, t);
            InUnits(units, events) && Then(ParsedBuilt(units[unit], t), BuildOf(units[unit], names, unit, t)) == Ran(units, names, events)
    decreases t, 1
  {
    var u := units[unit];
    var kids := if HasChildren(u, t) then KidEvents(u, unit, t.kids) else [];
    var below := if HasChildren(u, t) then BuildKids(u, names, unit, t.kids) else DONE;
    if HasChildren(u, t) {
      BuildKidsIsRan(units, names, unit, t.kids);
    }
    assert ([Enter(unit, t)] + kids)[1..] == kids;
    ThenAssociates(ParsedBuilt(u, t), OwnBuilt(u, names, unit, t.entry), below);
  }

  lemma {:induction false} BuildKidsIsRan(units: seq<Unit>, names: Names, unit: nat, kids: seq<Tree>)
    requires unit < |units|
    ensures var events := KidEvents(units[unit], unit, kids);
            InUnits(units, events) && BuildKids(units[unit], names, unit, kids) == Ran(units, names, events)
    decreases kids, 0
  {
    if kids != [] {
      var u := units[unit];
      var first, leave, rest := Events(u, unit, kids[0]), Leave(unit, kids[0]), KidEvents(u, unit, kids[1..]);
      BuildIsRan(units, names, unit, kids[0]);
      BuildKidsIsRan(units, names, unit, kids[1..]);
      assert ([leave] + rest)[1..] == rest;
      RanAppend(units, names, first, [leave] + rest);
      KidStep(units, names, unit, kids[0], BuildKids(u, names, unit, kids[1..]));
    }
  }

  /** One child: parsed, built and left. */
  lemma KidStep(units: seq<Unit>, names: Names, unit: nat, t: Tree, rest: Built)
    requires unit < |units|
    ensures var parsed, own := ParsedBuilt(units[unit], t), BuildOf(units[unit], names, unit, t);
            Then(parsed, Then(own, Then(Built([], Cross(units[unit], t)), rest)))
            == Then(Then(parsed, own), Then(EventBuilt(units, names, Leave(unit, t)), rest))
  {
    var parsed, own := ParsedBuilt(units[unit], t), BuildOf(units[unit], names, unit, t);
    var leave := Built([], Cross(units[unit], t));
    ThenAssociates(parsed, own, Then(leave, rest));
    if own.error.None? {
      BuiltCross(units[unit], names, unit, t);
    }
  }

  lemma {:induction false} BuildAllIsRan(units: seq<Unit>, names: Names, trees: seq<Tree>, n: nat)
    requires n <= |units| == |trees|
    ensures InUnits(units, AllEvents(units, trees, n)) && BuildAll(units, names, trees, n) == Ran(units, names, AllEvents(units, trees, n))
  {
    if n > 0 {
      BuildAllIsRan(units, names, trees, n - 1);
      NextIsRan(units, names, trees, n);
    }
  }

  lemma NextIsRan(units: seq<Unit>, names: Names, trees: seq<Tree>, n: nat)
    requires 0 < n <= |units| == |trees| && InUnits(units, AllEvents(units, trees, n - 1))
    requires BuildAll(units, names, trees, n - 1) == Ran(units, names, AllEvents(units, trees, n - 1))
    ensures InUnits(units, AllEvents(units, trees, n)) && BuildAll(units, names, trees, n) == Ran(units, names, AllEvents(units, trees, n))
  {
    var before, events := AllEvents(units, trees, n - 1), AllEvents(units, trees, n);
    var done, all := BuildAll(units, names, trees, n - 1), BuildAll(units, names, trees, n);
    AllSteps(units, names, trees, n);
    UnitIsRan(units, names, n - 1, trees[n - 1], before, events, done, all);
  }

  lemma AllSteps(units: seq<Unit>, names: Names, trees: seq<Tree>, n: nat)
    requires 0 < n <= |units| == |trees|
    ensures AllEvents(units, trees, n) == AllEvents(units, trees, n - 1) + Events(units[n - 1], n - 1, trees[n - 1])
    ensures var u, t := units[n - 1], trees[n - 1];
            BuildAll(units, names, trees, n)
            == Then(BuildAll(units, names, trees, n - 1), Then(ParsedBuilt(u, t), BuildOf(u, names, n - 1, t)))
  {
  }

  lemma UnitIsRan(units: seq<Unit>, names: Names, unit: nat, t: Tree, before: seq<Event>, events: seq<Event>, done: Built, all: Built)
    requires unit < |units| && InUnits(units, before) && done == Ran(units, names, before)
    requires events == before + Events(units[unit], unit, t)
    requires all == Then(done, Then(ParsedBuilt(units[unit], t), BuildOf(units[unit], names, unit, t)))
    ensures InUnits(units, events) && all == Ran(units, names, events)
  {
    BuildIsRan(units, names, unit, t);
    RanAppend(units, names, before, Events(units[unit], unit, t));
  }

  /** The walk comes to all entries, in the order of their bytes. */
  lemma {:induction false} FoundIsCollected(units: seq<Unit>, names: Names, unit: nat, t: Tree)
    requires unit < |units| && Proper(units[unit], t)
    ensures AllFound(units, names, Events(units[unit], unit, t)) == Collected(units[unit], names, unit, Preorder(t))
    decreases t, 1
  {
    var u := units[unit];
    var kids, below := if HasChildren(u, t) then KidEvents(u, unit, t.kids) else [], PreorderOf(t.kids);
    assert ([Enter(unit, t)] + kids)[1..] == kids && ([t.entry] + below)[1..] == below;
    FoundOfKids(units, names, unit, t.kids);
  }

  lemma {:induction false} FoundOfKids(units: seq<Unit>, names: Names, unit: nat, kids: seq<Tree>)
    requires unit < |units| && AllProper(units[unit], kids)
    ensures AllFound(units, names, KidEvents(units[unit], unit, kids)) == Collected(units[unit], names, unit, PreorderOf(kids))
    decreases kids, 0
  {
    if kids != [] {
      var u := units[unit];
      var first, leave, rest := Events(u, unit, kids[0]), Leave(unit, kids[0]), KidEvents(u, unit, kids[1..]);
      FoundIsCollected(units, names, unit, kids[0]);
      FoundOfKids(units, names, unit, kids[1..]);
      FoundAppend(units, names, first, [leave] + rest);
      assert ([leave] + rest)[1..] == rest;
      assert [] + AllFound(units, names, rest) == AllFound(units, names, rest);
      CollectedAppend(u, names, unit, Preorder(kids[0]), PreorderOf(kids[1..]));
    }
  }

  lemma {:induction false} FoundIsAllFunctions(units: seq<Unit>, roots: seq<nat>, names: Names, trees: seq<Tree>, n: nat)
    requires n <= |units| == |roots| == |trees| && AllLaid(units, roots, trees, n)
    ensures AllFound(units, names, AllEvents(units, trees, n)) == AllFunctions(units, names, trees, n)
  {
    if n > 0 {
      FoundIsAllFunctions(units, roots, names, trees, n - 1);
      LaidIsProper(units[n - 1], trees[n - 1]);
      FoundIsCollected(units, names, n - 1, trees[n - 1]);
      FoundAppend(units, names, AllEvents(units, trees, n - 1), Events(units[n - 1], n - 1, trees[n - 1]));
    }
  }

  // ----- What the functions are called -----

  predicate IsFunctionAt(u: Unit, t: Tree) {
    t.entry.Entry? && t.entry.code in u.abbrevs && IsFunction(u.abbrevs[t.entry.code])
  }

  /** The entry is a function that the reader accepts, so that the build asks for its name. */
  predicate IsAsked(units: seq<Unit>, e: Event) {
    e.Enter? && e.unit < |units| && !Refused(units[e.unit], e.t) && IsFunctionAt(units[e.unit], e.t)
  }

  /** What `name` answers, or throws, for that entry. */
  ghost predicate Answered(units: seq<Unit>, strings: seq<byte>, names: Names, e: Event) {
    IsAsked(units, e) ==>
      exists k: nat :: EndsAt(CallsOf(units, strings), Place(e.unit, e.t.entry.pos), k, names(e.unit, e.t.entry.pos))
  }

  /** The lookups of the build are those of `name` on these units, and return. */
  ghost predicate AreLookups(units: seq<Unit>, strings: seq<byte>, names: Names, events: seq<Event>) {
    forall i :: 0 <= i < |events| ==> Answered(units, strings, names, events[i])
  }

  /** The names that the bytes give the entries, readable or not. */
  ghost function NamesOf(units: seq<Unit>, strings: seq<byte>): Names {
    (unit: nat, pos: nat) => Ok(NameOf(units, strings, Place(unit, pos)))
  }

  /** Where the walk does not fail, it finds a function under its own name. */
  ghost predicate FindsRightly(units: seq<Unit>, names: Names, meant: Names, events: seq<Event>) {
    forall i :: 0 <= i < |events| && !Fails(units, names, events[i]) ==> Found(units, names, events[i]) == Found(units, meant, events[i])
  }

  lemma OneFoundRightly(units: seq<Unit>, strings: seq<byte>, names: Names, e: Event)
    requires Answered(units, strings, names, e) && !Fails(units, names, e)
    ensures Found(units, names, e) == Found(units, NamesOf(units, strings), e)
  {
    if IsAsked(units, e) {
      var p, name := Place(e.unit, e.t.entry.pos), names(e.unit, e.t.entry.pos);
      var k: nat :| EndsAt(CallsOf(units, strings), p, k, name);
      AnswerIsName(units, strings, p, k, name.value);
    }
  }

  lemma LookupsFindRightly(units: seq<Unit>, strings: seq<byte>, names: Names, events: seq<Event>)
    requires AreLookups(units, strings, names, events)
    ensures FindsRightly(units, names, NamesOf(units, strings), events)
  {
    forall i | 0 <= i < |events| && !Fails(units, names, events[i])
      ensures Found(units, names, events[i]) == Found(units, NamesOf(units, strings), events[i])
    {
      OneFoundRightly(units, strings, names, events[i]);
    }
  }

  // ----- Failing and complete builds -----

  predicate NothingFails(units: seq<Unit>, names: Names, events: seq<Event>) {
    forall j :: 0 <= j < |events| ==> !Fails(units, names, events[j])
  }

  /** There is no function from a place on where the walk fails. */
  predicate NothingBehind(units: seq<Unit>, names: Names, meant: Names, events: seq<Event>) {
    forall i, j :: 0 <= j <= i < |events| && Fails(units, names, events[j]) ==> Found(units, meant, events[i]) == []
  }

  predicate NothingFound(units: seq<Unit>, meant: Names, events: seq<Event>) {
    forall i :: 0 <= i < |events| ==> Found(units, meant, events[i]) == []
  }

  lemma {:induction false} NothingFoundExactly(units: seq<Unit>, meant: Names, events: seq<Event>)
    ensures AllFound(units, meant, events) == [] <==> NothingFound(units, meant, events)
    decreases events
  {
    if events != [] {
      var rest := events[1..];
      NothingFoundExactly(units, meant, rest);
      assert forall i :: 0 < i < |events| ==> events[i] == rest[i - 1];
      if NothingFound(units, meant, rest) && Found(units, meant, events[0]) == [] {
        assert forall i :: 0 <= i < |events| ==> Found(units, meant, events[i]) == [];
      }
      if NothingFound(units, meant, events) {
        assert forall i :: 0 <= i < |rest| ==> rest[i] == events[i + 1];
      }
    }
  }

  lemma TailConditions(units: seq<Unit>, names: Names, meant: Names, events: seq<Event>)
    requires events != [] && !Fails(units, names, events[0])
    ensures NothingFails(units, names, events) <==> NothingFails(units, names, events[1..])
    ensures NothingBehind(units, names, meant, events) <==> NothingBehind(units, names, meant, events[1..])
  {
    var rest := events[1..];
    assert forall i :: 0 < i < |events| ==> events[i] == rest[i - 1];
    assert forall i :: 0 <= i < |rest| ==> rest[i] == events[i + 1];
    if NothingBehind(units, names, meant, rest) {
      forall i, j | 0 <= j <= i < |events| && Fails(units, names, events[j])
        ensures Found(units, meant, events[i]) == []
      {
        assert rest[j - 1] == events[j] && rest[i - 1] == events[i];
      }
    }
    if NothingBehind(units, names, meant, events) {
      forall i, j | 0 <= j <= i < |rest| && Fails(units, names, rest[j])
        ensures Found(units, meant, rest[i]) == []
      {
        assert rest[j] == events[j + 1] && rest[i] == events[i + 1];
      }
    }
  }

  lemma FirstFails(units: seq<Unit>, names: Names, meant: Names, events: seq<Event>)
    requires InUnits(units, events) && events != [] && Fails(units, names, events[0])
    ensures var ran := Ran(units, names, events); ran.error.Some? && ran.entries == []
    ensures NothingBehind(units, names, meant, events) <==> NothingFound(units, meant, events)
  {
    if NothingBehind(units, names, meant, events) {
      forall i | 0 <= i < |events| ensures Found(units, meant, events[i]) == [] {
        assert Fails(units, names, events[0]);
      }
    }
  }

  lemma FindsRightlyLater(units: seq<Unit>, names: Names, meant: Names, events: seq<Event>)
    requires events != [] && FindsRightly(units, names, meant, events)
    ensures FindsRightly(units, names, meant, events[1..])
    ensures !Fails(units, names, events[0]) ==> Found(units, names, events[0]) == Found(units, meant, events[0])
  {
    var rest := events[1..];
    assert forall i :: 0 <= i < |rest| ==> rest[i] == events[i + 1];
  }

  /** A walk is built without an error if and only if it fails nowhere. What is built is a front part of the
      functions there are, and all of them if and only if there is none from a place on where the walk fails. */
  lemma {:induction false} RanExactly(units: seq<Unit>, names: Names, meant: Names, events: seq<Event>)
    requires InUnits(units, events) && FindsRightly(units, names, meant, events)
    ensures Ran(units, names, events).error.None? <==> NothingFails(units, names, events)
    ensures Ran(units, names, events).entries <= AllFound(units, meant, events)
    ensures Ran(units, names, events).entries == AllFound(units, meant, events) <==> NothingBehind(units, names, meant, events)
    decreases events
  {
    if events != [] {
      FindsRightlyLater(units, names, meant, events);
      if Fails(units, names, events[0]) {
        FirstFails(units, names, meant, events);
        NothingFoundExactly(units, meant, events);
      } else {
        var own, rest, all := Found(units, names, events[0]), Ran(units, names, events[1..]).entries, AllFound(units, meant, events[1..]);
        RanExactly(units, names, meant, events[1..]);
        TailConditions(units, names, meant, events);
        assert EventBuilt(units, names, events[0]) == Built(own, None) by {
          assert [] + own == own;
        }
        SameFront(own, rest, all);
      }
    }
  }

  lemma SameFront(own: seq<IndexEntry>, rest: seq<IndexEntry>, all: seq<IndexEntry>)
    requires rest <= all
    ensures own + rest <= own + all && (own + rest == own + all <==> rest == all)
  {
    assert (own + all)[..|own| + |rest|] == own + all[..|rest|];
    assert rest == (own + rest)[|own|..] && all == (own + all)[|own|..];
  }

  /** Over all units, in the pre-order of their entries: the first query fails if and only if some entry cannot be
      parsed, the lookup of some function's name throws, or some child's sibling reference is not followed. And
      after any number of queries, failed ones included, the index is complete, as the bytes name the functions,
      if and only if there is no named function at or behind such an entry, nor behind the subtree of such a
      child. */
  lemma IndexIsCompleteExactly(units: seq<Unit>, roots: seq<nat>, strings: seq<byte>, names: Names, trees: seq<Tree>, n: nat)
    requires |units| == |roots| == |trees| && AllLaid(units, roots, trees, |units|)
    requires AreLookups(units, strings, names, AllEvents(units, trees, |units|))
    ensures var built, events, meant := BuildAll(units, names, trees, |units|), AllEvents(units, trees, |units|), NamesOf(units, strings);
            var index := AfterQueries(built, n + 1);
            && (QueryError(built, 0).None? <==> NothingFails(units, names, events))
            && index <= AllFunctions(units, meant, trees, |units|)
            && (index == AllFunctions(units, meant, trees, |units|) <==> NothingBehind(units, names, meant, events))
  {
    var built, events, meant := BuildAll(units, names, trees, |units|), AllEvents(units, trees, |units|), NamesOf(units, strings);
    QueriesExactly(built, 0);
    QueriesExactly(built, n);
    BuildAllIsRan(units, names, trees, |units|);
    FoundIsAllFunctions(units, roots, meant, trees, |units|);
    LookupsFindRightly(units, strings, names, events);
    RanExactly(units, names, meant, events);
  }

  /** An entry under this name, a subprogram (0x2e) or an inlined subroutine (0x1d) with a low address (0x11) or
      ranges (0x55). */
  predicate IsNamedFunction(u: Unit, names: Names, e: IndexEntry, d: Die) {
    && d.Entry? && d.pos == e.pos && d.code in u.abbrevs && u.abbrevs[d.code].tag in {0x2e, 0x1d}
    && (exists i :: 0 <= i < |u.abbrevs[d.code].specs| && u.abbrevs[d.code].specs[i].attr in {0x11, 0x55})
    && names(e.unit, e.pos) == Ok(Some(e.name))
  }

  lemma OwnExactly(u: Unit, names: Names, unit: nat, d: Die, e: IndexEntry)
    ensures e in Own(u, names, unit, d) <==> e.unit == unit && IsNamedFunction(u, names, e, d)
  {
    if d.Entry? && d.code in u.abbrevs {
      var specs := u.abbrevs[d.code].specs;
      var low, ranges := FindAttr(specs, AT_LOW_PC), FindAttr(specs, AT_RANGES);
      assert low.Some? ==> specs[low.value].attr == 0x11;
      assert ranges.Some? ==> specs[ranges.value].attr == 0x55;
    }
  }

  lemma {:induction false} CollectedExactly(u: Unit, names: Names, unit: nat, dies: seq<Die>, e: IndexEntry)
    ensures e in Collected(u, names, unit, dies) <==> e.unit == unit && exists d :: d in dies && IsNamedFunction(u, names, e, d)
    decreases dies
  {
    if dies != [] {
      CollectedExactly(u, names, unit, dies[1..], e);
      OwnExactly(u, names, unit, dies[0], e);
      assert dies == [dies[0]] + dies[1..];
    }
  }

  /** What there is to index: the named subprograms and inlined subroutines with addresses, at any depth. */
  lemma {:induction false} AllFunctionsExactly(units: seq<Unit>, names: Names, trees: seq<Tree>, n: nat, e: IndexEntry)
    requires n <= |units| == |trees|
    ensures e in AllFunctions(units, names, trees, n)
       <==> e.unit < n && exists d :: d in Preorder(trees[e.unit]) && IsNamedFunction(units[e.unit], names, e, d)
  {
    if n > 0 {
      AllFunctionsExactly(units, names, trees, n - 1, e);
      CollectedExactly(units[n - 1], names, n - 1, Preorder(trees[n - 1]), e);
    }
  }

  /** Up to the first place where it fails, the build adds what the walk finds. */
  lemma {:induction false} RanUpTo(units: seq<Unit>, names: Names, good: seq<Event>, bad: Event, rest: seq<Event>, error: Error)
    requires InUnits(units, good) && bad.unit < |units| && InUnits(units, rest)
    requires (forall i :: 0 <= i < |good| ==> !Fails(units, names, good[i])) && EventBuilt(units, names, bad) == Built([], Some(error))
    ensures InUnits(units, good + ([bad] + rest))
    ensures Ran(units, names, good + ([bad] + rest)) == Built(AllFound(units, names, good), Some(error))
    decreases good
  {
    if good == [] {
      assert good + ([bad] + rest) == [bad] + rest && ([bad] + rest)[0] == bad;
    } else {
      assert (good + ([bad] + rest))[1..] == good[1..] + ([bad] + rest);
      RanUpTo(units, names, good[1..], bad, rest, error);
      assert EventBuilt(units, names, good[0]) == Built(Found(units, names, good[0]), None) by {
        assert [] + Found(units, names, good[0]) == Found(units, names, good[0]);
      }
    }
  }

  // ----- The witness -----

  /** A compile unit with its header: the function `f` with ranges, `i` inlined into it, and `g` with an address. */
  const COMPILED: Unit := Unit(
    [35, 0, 0, 0, 4, 0, 0, 0, 0, 0, 8] + [1] + [2, 102, 0, 0, 0, 0, 0] + [4, 105, 0, 0, 0, 0, 0] + [0]
    + [3, 103, 0, 0, 0, 0, 0, 0, 0, 0, 0] + [0], 0,
    map[1 := Abbrev(0x11, true, []),
        2 := Abbrev(TAG_SUBPROGRAM, true, WITH_RANGES),
        3 := Abbrev(TAG_SUBPROGRAM, false, WITH_ADDRESS),
        4 := Abbrev(TAG_INLINED_SUBROUTINE, false, WITH_RANGES)])

  const WITH_RANGES := [AttrSpec(AT_NAME, FORM_STRING), AttrSpec(AT_RANGES, FORM_SEC_OFFSET)]
  const WITH_ADDRESS := [AttrSpec(AT_NAME, FORM_STRING), AttrSpec(AT_LOW_PC, FORM_ADDR)]

  const INNER := Tree(Entry(19, 4, [20, 22], 26), [[105, 0], [0, 0, 0, 0]], 26, [])
  const FIRST := Tree(Entry(12, 2, [13, 15], 19), [[102, 0], [0, 0, 0, 0]], 27, [INNER])
  const SECOND := Tree(Entry(27, 3, [28, 30], 38), [[103, 0], [0, 0, 0, 0, 0, 0, 0, 0]], 38, [])
  const ROOT := Tree(Entry(11, 1, [], 12), [], 39, [FIRST, SECOND])

  lemma TwoAttrsLaid(data: seq<byte>, pos: nat, specs: seq<AttrSpec>, attrs: seq<seq<byte>>, end: nat)
    requires |specs| == |attrs| == 2 && end == pos + |attrs[0]| + |attrs[1]|
    requires At(data, pos, attrs[0]) && IsEncoding(specs[0].form, attrs[0])
    requires At(data, pos + |attrs[0]|, attrs[1]) && IsEncoding(specs[1].form, attrs[1])
    ensures AttrsLaid(data, pos, specs, attrs, [pos, pos + |attrs[0]|], end)
  {
    var second := pos + |attrs[0]|;
    assert [pos, second][1..] == [second];
    assert AttrsLaid(data, end, [], [], [], end);
    assert AttrsLaid(data, second, specs[1..], attrs[1..], [second], end) by {
      assert |specs[1..][1..]| == 0 == |attrs[1..][1..]| && |[second][1..]| == 0;
    }
  }

  lemma NoSiblings()
    ensures FindAttr(WITH_RANGES, AT_SIBLING) == None == FindAttr(WITH_ADDRESS, AT_SIBLING)
  {
    assert WITH_RANGES[1..][1..] == [] == WITH_ADDRESS[1..][1..];
    assert FindAttr(WITH_RANGES[1..], AT_SIBLING) == None == FindAttr(WITH_ADDRESS[1..], AT_SIBLING);
  }

  lemma RangesAreRead(attrs: seq<seq<byte>>)
    requires |attrs| == 2
    ensures !SomeRejected(WITH_RANGES, attrs)
  {
    assert WITH_RANGES[1..][1..] == [] && attrs[1..][1..] == [];
    assert !SomeRejected(WITH_RANGES[1..], attrs[1..]);
  }

  lemma CompiledBytes()
    ensures var data := COMPILED.data;
            && At(data, 11, [1]) && At(data, 12, [2]) && At(data, 13, FIRST.attrs[0]) && At(data, 15, FIRST.attrs[1])
            && At(data, 19, [4]) && At(data, 20, INNER.attrs[0]) && At(data, 22, INNER.attrs[1]) && At(data, 26, [0])
            && At(data, 27, [3]) && At(data, 28, SECOND.attrs[0]) && At(data, 30, SECOND.attrs[1]) && At(data, 38, [0])
  {
    var data := COMPILED.data;
    assert data[11..12] == [1] && data[12..13] == [2] && data[26..27] == [0] && data[38..39] == [0];
    assert data[13..15] == FIRST.attrs[0] && data[15..19] == FIRST.attrs[1];
    assert data[19..20] == [4] && data[20..22] == INNER.attrs[0] && data[22..26] == INNER.attrs[1];
    LastBytes();
  }

  lemma LastBytes()
    ensures At(COMPILED.data, 27, [3]) && At(COMPILED.data, 28, SECOND.attrs[0]) && At(COMPILED.data, 30, SECOND.attrs[1])
  {
    var data := COMPILED.data;
    assert data[27..28] == [3];
    assert data[28] == 103 && data[29] == 0 && data[28..30] == [103, 0];
    assert data[30..38] == [0, 0, 0, 0, 0, 0, 0, 0];
  }

  /** An entry of two attributes and a small abbreviation code. */
  lemma TwoAttrEntry(u: Unit, t: Tree, specs: seq<AttrSpec>)
    requires t.entry.Entry? && 0 < t.entry.code < 0x80 && t.entry.code in u.abbrevs && u.abbrevs[t.entry.code].specs == specs
    requires |specs| == |t.attrs| == 2 && FindAttr(specs, AT_SIBLING) == None
    requires At(u.data, t.entry.pos, [t.entry.code]) && t.entry.attrs == [t.entry.pos + 1, t.entry.pos + 1 + |t.attrs[0]|]
    requires At(u.data, t.entry.attrs[0], t.attrs[0]) && IsEncoding(specs[0].form, t.attrs[0])
    requires At(u.data, t.entry.attrs[1], t.attrs[1]) && IsEncoding(specs[1].form, t.attrs[1])
    requires t.entry.next == t.entry.attrs[1] + |t.attrs[1]|
    ensures HeaderLaid(u, t) && SiblingRight(u, t)
  {
    var pos := t.entry.pos + 1;
    assert UlebEncode(t.entry.code) == [t.entry.code] && |UlebEncode(t.entry.code)| == 1;
    assert t.entry.attrs == [pos, pos + |t.attrs[0]|];
    TwoAttrsLaid(u.data, pos, specs, t.attrs, t.entry.next);
  }

  lemma InnerIsLaid()
    ensures Laid(COMPILED, INNER) && !Refused(COMPILED, INNER)
  {
    CompiledBytes();
    NoSiblings();
    TwoAttrEntry(COMPILED, INNER, WITH_RANGES);
    RangesAreRead(INNER.attrs);
  }

  lemma OneKidLaid(u: Unit, t: Tree, kid: Tree)
    requires HeaderLaid(u, t) && SiblingRight(u, t) && u.abbrevs[t.entry.code].hasChildren && t.kids == [kid]
    requires Laid(u, kid) && kid.entry.pos == t.entry.next && t.end == kid.end + 1 && At(u.data, kid.end, [0])
    ensures Laid(u, t)
  {
    assert t.kids[1..] == [] && KidsLaid(u, [], kid.end, kid.end);
    assert KidsLaid(u, t.kids, t.entry.next, kid.end);
  }

  lemma FirstIsLaid()
    ensures Laid(COMPILED, FIRST) && !Refused(COMPILED, FIRST)
  {
    CompiledBytes();
    NoSiblings();
    TwoAttrEntry(COMPILED, FIRST, WITH_RANGES);
    RangesAreRead(FIRST.attrs);
    InnerIsLaid();
    OneKidLaid(COMPILED, FIRST, INNER);
  }

  lemma SecondIsLaid()
    ensures Laid(COMPILED, SECOND) && Refused(COMPILED, SECOND)
  {
    CompiledBytes();
    NoSiblings();
    TwoAttrEntry(COMPILED, SECOND, WITH_ADDRESS);
    assert SomeRejected(WITH_ADDRESS[1..], SECOND.attrs[1..]);
  }

  lemma TwoKidsLaid(u: Unit, t: Tree, a: Tree, b: Tree)
    requires HeaderLaid(u, t) && SiblingRight(u, t) && u.abbrevs[t.entry.code].hasChildren && t.kids == [a, b]
    requires Laid(u, a) && Laid(u, b) && a.entry.pos == t.entry.next && b.entry.pos == a.end && t.end == b.end + 1 && At(u.data, b.end, [0])
    ensures Laid(u, t)
  {
    assert t.kids[1..] == [b] && t.kids[1..][1..] == [] && KidsLaid(u, [], b.end, b.end);
    assert KidsLaid(u, t.kids[1..], a.end, b.end);
    assert KidsLaid(u, t.kids, t.entry.next, b.end);
  }

  lemma RootIsLaid()
    ensures Laid(COMPILED, ROOT) && !Refused(COMPILED, ROOT) && AllLaid([COMPILED], [11], [ROOT], 1)
  {
    CompiledBytes();
    FirstIsLaid();
    SecondIsLaid();
    assert UlebEncode(1) == [1] && HeaderLaid(COMPILED, ROOT) && SiblingRight(COMPILED, ROOT);
    TwoKidsLaid(COMPILED, ROOT, FIRST, SECOND);
    assert AllLaid([COMPILED], [11], [ROOT], 0);
  }

  /** The names lie in the bytes. */
  lemma FunctionsHaveNames(strings: seq<byte>)
    ensures var meant := NamesOf([COMPILED], strings);
            meant(0, 12) == Ok(Some([102])) && meant(0, 19) == Ok(Some([105])) && meant(0, 27) == Ok(Some([103]))
  {
    FirstIsLaid();
    InnerIsLaid();
    SecondIsLaid();
    assert [102] + [0] == FIRST.attrs[0] && [105] + [0] == INNER.attrs[0] && [103] + [0] == SECOND.attrs[0];
    OwnNameIsMeant([COMPILED], strings, 0, FIRST, 0, [102]);
    OwnNameIsMeant([COMPILED], strings, 0, INNER, 0, [105]);
    OwnNameIsMeant([COMPILED], strings, 0, SECOND, 0, [103]);
  }

  const READ := [Enter(0, ROOT), Enter(0, FIRST), Enter(0, INNER), Leave(0, INNER), Leave(0, FIRST)]

  lemma WalkOverCompiled()
    ensures AllEvents([COMPILED], [ROOT], 1) == READ + ([Enter(0, SECOND)] + [Leave(0, SECOND)])
  {
    var u, rest := COMPILED, ROOT.kids[1..];
    assert rest == [SECOND] && rest[1..] == [] && FIRST.kids[1..] == [];
    assert Events(u, 0, INNER) == [Enter(0, INNER)] && Events(u, 0, SECOND) == [Enter(0, SECOND)];
    assert KidEvents(u, 0, FIRST.kids) == [Enter(0, INNER)] + ([Leave(0, INNER)] + []);
    assert Events(u, 0, FIRST) == [Enter(0, FIRST)] + KidEvents(u, 0, FIRST.kids);
    assert KidEvents(u, 0, rest) == [Enter(0, SECOND)] + ([Leave(0, SECOND)] + []);
    assert KidEvents(u, 0, ROOT.kids) == Events(u, 0, FIRST) + ([Leave(0, FIRST)] + KidEvents(u, 0, rest));
    assert Events(u, 0, ROOT) == [Enter(0, ROOT)] + KidEvents(u, 0, ROOT.kids);
    assert AllEvents([u], [ROOT], 0) == [] && AllEvents([u], [ROOT], 1) == [] + Events(u, 0, ROOT);
  }

  /** What `name` answers at an entry of the unit that is read and has the name `text`, at the first call. */
  lemma IsAnswered(strings: seq<byte>, t: Tree, text: seq<byte>)
    requires Laid(COMPILED, t) && !Refused(COMPILED, t) && COMPILED.abbrevs[t.entry.code].specs == WITH_RANGES
    requires t.entry.attrs == [t.entry.pos + 1, t.entry.pos + 3] && 0 !in text && At(COMPILED.data, t.entry.pos + 1, text + [0])
    ensures EndsAt(CallsOf([COMPILED], strings), Place(0, t.entry.pos), 0, Ok(Some(text)))
  {
    ParseLaid(COMPILED, t);
    TextIsRead(COMPILED.data, t.entry.pos + 1, text);
  }

  lemma TwoAreAnswered(strings: seq<byte>)
    ensures EndsAt(CallsOf([COMPILED], strings), Place(0, 12), 0, Ok(Some([102])))
    ensures EndsAt(CallsOf([COMPILED], strings), Place(0, 19), 0, Ok(Some([105])))
  {
    CompiledBytes();
    FirstIsLaid();
    InnerIsLaid();
    assert [102] + [0] == FIRST.attrs[0] && [105] + [0] == INNER.attrs[0];
    IsAnswered(strings, FIRST, [102]);
    IsAnswered(strings, INNER, [105]);
  }

  lemma AnsweredExactly(units: seq<Unit>, strings: seq<byte>, names: Names, e: Event, k: nat, r: Result<Option<seq<byte>>>)
    requires IsAsked(units, e) && EndsAt(CallsOf(units, strings), Place(e.unit, e.t.entry.pos), k, r)
    ensures Answered(units, strings, names, e) <==> names(e.unit, e.t.entry.pos) == r
  {
    var calls, p := CallsOf(units, strings), Place(e.unit, e.t.entry.pos);
    if Answered(units, strings, names, e) {
      var j: nat :| EndsAt(calls, p, j, names(e.unit, e.t.entry.pos));
      EndsOnce(calls, p, k, r, j, names(e.unit, e.t.entry.pos));
    }
  }

  lemma TwoAsked(units: seq<Unit>, strings: seq<byte>, names: Names, events: seq<Event>, i: nat, j: nat,
                 a: Result<Option<seq<byte>>>, b: Result<Option<seq<byte>>>)
    requires i < |events| && j < |events| && forall k :: 0 <= k < |events| && k != i && k != j ==> !IsAsked(units, events[k])
    requires IsAsked(units, events[i]) && EndsAt(CallsOf(units, strings), Place(events[i].unit, events[i].t.entry.pos), 0, a)
    requires IsAsked(units, events[j]) && EndsAt(CallsOf(units, strings), Place(events[j].unit, events[j].t.entry.pos), 0, b)
    ensures AreLookups(units, strings, names, events)
       <==> names(events[i].unit, events[i].t.entry.pos) == a && names(events[j].unit, events[j].t.entry.pos) == b
  {
    AnsweredExactly(units, strings, names, events[i], 0, a);
    AnsweredExactly(units, strings, names, events[j], 0, b);
  }

  lemma AreFunctions()
    ensures !IsFunctionAt(COMPILED, ROOT) && IsFunctionAt(COMPILED, FIRST) && IsFunctionAt(COMPILED, INNER) && IsFunctionAt(COMPILED, SECOND)
  {
    assert FindAttr([], AT_LOW_PC) == None == FindAttr([], AT_RANGES);
    assert FindAttr(WITH_RANGES[1..], AT_RANGES) == Some(0) && FindAttr(WITH_ADDRESS[1..], AT_LOW_PC) == Some(0);
  }

  /** Which entries the reader refuses, and which of the others are functions. */
  lemma Verdicts()
    ensures !Refused(COMPILED, ROOT) && !Refused(COMPILED, FIRST) && !Refused(COMPILED, INNER) && Refused(COMPILED, SECOND)
    ensures !IsFunctionAt(COMPILED, ROOT) && IsFunctionAt(COMPILED, FIRST) && IsFunctionAt(COMPILED, INNER)
    ensures !Lost(COMPILED, FIRST) && !Lost(COMPILED, INNER)
  {
    RootIsLaid();
    FirstIsLaid();
    InnerIsLaid();
    SecondIsLaid();
    AreFunctions();
    NothingIsLost();
  }

  lemma WhoIsAsked()
    ensures var events := AllEvents([COMPILED], [ROOT], 1);
            && |events| == 7 && events[1] == Enter(0, FIRST) && events[2] == Enter(0, INNER)
            && forall k :: 0 <= k < |events| ==> (IsAsked([COMPILED], events[k]) <==> k == 1 || k == 2)
  {
    Verdicts();
    WalkOverCompiled();
    assert !IsAsked([COMPILED], Enter(0, ROOT)) && !IsAsked([COMPILED], Enter(0, SECOND));
  }

  /** The lookups of `name` on these bytes: the functions that are asked are `f` and `i`. */
  lemma LookupsExactly(strings: seq<byte>, names: Names)
    ensures AreLookups([COMPILED], strings, names, AllEvents([COMPILED], [ROOT], 1))
       <==> names(0, 12) == Ok(Some([102])) && names(0, 19) == Ok(Some([105]))
  {
    WhoIsAsked();
    TwoAreAnswered(strings);
    TwoAsked([COMPILED], strings, names, AllEvents([COMPILED], [ROOT], 1), 1, 2, Ok(Some([102])), Ok(Some([105])));
  }

  lemma NothingIsLost()
    ensures !Lost(COMPILED, FIRST) && !Lost(COMPILED, INNER)
  {
    NoSiblings();
  }

  lemma EnteredSafely(units: seq<Unit>, names: Names, t: Tree)
    requires |units| == 1 && !Refused(units[0], t) && (IsFunctionAt(units[0], t) ==> names(0, t.entry.pos).Ok?)
    ensures !Fails(units, names, Enter(0, t))
  {
  }

  /** Where the walk fails. */
  lemma WhatFails(names: Names)
    requires names(0, 12).Ok? && names(0, 19).Ok?
    ensures forall i :: 0 <= i < |READ| ==> !Fails([COMPILED], names, READ[i])
    ensures EventBuilt([COMPILED], names, Enter(0, SECOND)) == Built([], Some(UnknownForm))
  {
    Verdicts();
    EnteredSafely([COMPILED], names, ROOT);
    EnteredSafely([COMPILED], names, FIRST);
    EnteredSafely([COMPILED], names, INNER);
  }

  /** What it finds up to there, by these names, and at the last function. */
  lemma WhatIsFound(names: Names, f: seq<byte>, i: seq<byte>)
    requires names(0, 12) == Ok(Some(f)) && names(0, 19) == Ok(Some(i))
    ensures AllFound([COMPILED], names, READ) == [IndexEntry(f, 0, 12), IndexEntry(i, 0, 19)]
  {
    var units, a, b := [COMPILED], [IndexEntry(f, 0, 12)], [IndexEntry(i, 0, 19)];
    AreFunctions();
    var four, three, two, one := READ[1..], READ[1..][1..], READ[1..][1..][1..], READ[1..][1..][1..][1..];
    assert one[1..] == [] && AllFound(units, names, one) == [];
    assert two[0] == Leave(0, INNER) && AllFound(units, names, two) == [] + [];
    assert three[0] == Enter(0, INNER) && AllFound(units, names, three) == b + [];
    assert four[0] == Enter(0, FIRST) && AllFound(units, names, four) == a + (b + []);
    assert READ[0] == Enter(0, ROOT) && AllFound(units, names, READ) == [] + (a + (b + []));
  }

  /** The unit is laid out as the standard says, and its bytes name all three functions. The last is missing from the
      index for good, and only the first query says so. */
  lemma SecondFunctionIsLost(strings: seq<byte>, names: Names, n: nat)
    requires AreLookups([COMPILED], strings, names, AllEvents([COMPILED], [ROOT], 1))
    ensures AllLaid([COMPILED], [11], [ROOT], 1)
    ensures var built, f, i, g := BuildAll([COMPILED], names, [ROOT], 1), IndexEntry([102], 0, 12), IndexEntry([105], 0, 19), IndexEntry([103], 0, 27);
            && QueryError(built, 0) == Some(UnknownForm) && QueryError(built, n + 1) == None
            && AfterQueries(built, n + 1) == [f, i]
            && AllFunctions([COMPILED], NamesOf([COMPILED], strings), [ROOT], 1) == [f, i, g]
  {
    var units, built := [COMPILED], BuildAll([COMPILED], names, [ROOT], 1);
    LookupsExactly(strings, names);
    RootIsLaid();
    WalkOverCompiled();
    WhatFails(names);
    WhatIsFound(names, [102], [105]);
    RanUpTo(units, names, READ, Enter(0, SECOND), [Leave(0, SECOND)], UnknownForm);
    BuildAllIsRan(units, names, [ROOT], 1);
    QueriesExactly(built, 0);
    QueriesExactly(built, n);
    QueriesExactly(built, n + 1);
    AllThree(strings);
  }

  lemma LastIsFound(names: Names, g: seq<byte>)
    requires names(0, 27) == Ok(Some(g))
    ensures AllFound([COMPILED], names, [Enter(0, SECOND)] + [Leave(0, SECOND)]) == [IndexEntry(g, 0, 27)]
  {
    var last := [Enter(0, SECOND)] + [Leave(0, SECOND)];
    AreFunctions();
    assert last[1..] == [Leave(0, SECOND)] && last[1..][1..] == [] && AllFound([COMPILED], names, last[1..]) == [];
    assert AllFound([COMPILED], names, last) == [IndexEntry(g, 0, 27)] + [];
  }

  lemma ThreeAreFound(names: Names, f: seq<byte>, i: seq<byte>, g: seq<byte>)
    requires names(0, 12) == Ok(Some(f)) && names(0, 19) == Ok(Some(i)) && names(0, 27) == Ok(Some(g))
    ensures AllFound([COMPILED], names, AllEvents([COMPILED], [ROOT], 1)) == [IndexEntry(f, 0, 12), IndexEntry(i, 0, 19), IndexEntry(g, 0, 27)]
  {
    WalkOverCompiled();
    FoundAppend([COMPILED], names, READ, [Enter(0, SECOND)] + [Leave(0, SECOND)]);
    WhatIsFound(names, f, i);
    LastIsFound(names, g);
  }

  lemma AllThree(strings: seq<byte>)
    ensures AllFunctions([COMPILED], NamesOf([COMPILED], strings), [ROOT], 1)
         == [IndexEntry([102], 0, 12), IndexEntry([105], 0, 19), IndexEntry([103], 0, 27)]
  {
    RootIsLaid();
    FunctionsHaveNames(strings);
    ThreeAreFound(NamesOf([COMPILED], strings), [102], [105], [103]);
    FoundIsAllFunctions([COMPILED], [11], NamesOf([COMPILED], strings), [ROOT], 1);
  }
}
