/** The BOM: what it holds, how its dependency graph grows, and when it is valid. */
module Boms {
  import opened BomRefs
  import opened Compare
  import opened Components
  import opened Dependencies
  import opened Graph
  import opened SortedSets
  import opened Walks

  // Position of the first entry whose ref equals `r`, or the number of entries.
  function FindEntry(ds: seq<Dependency>, r: BomRef): (i: nat)
    reads r, RefsOf(ds)
    ensures i <= |ds|
    ensures i < |ds| ==> ds[i].ref.Equals(r)
    ensures forall j :: 0 <= j < i ==> !ds[j].ref.Equals(r)
  {
    if ds == [] then 0
    else
      assert RefsOf(ds)[0] == ds[0].ref && RefsOf(ds[1..]) == RefsOf(ds)[1..];
      if ds[0].ref.Equals(r) then 0 else 1 + FindEntry(ds[1..], r)
  }

  lemma FoundAtKey(ds: seq<Dependency>, r: BomRef, g: seq<Entry>)
    requires |g| == |ds| && forall i :: 0 <= i < |ds| ==> g[i].ref == ds[i].ref.Key()
    ensures Find(g, r.Key()) == FindEntry(ds, r)
  {
  }

  method NewEntry(target: BomRef, dependsOn: seq<BomRef>, ghost ks: seq<RefKey>) returns (d: Dependency)
    requires ks == Keys(dependsOn)
    ensures fresh(d) && d.ref == target
    ensures forall n <- d.dependencies :: fresh(n) && n.dependencies == [] && n != d
    ensures WellSorted(Keys(RefsOf(d.dependencies)))
    ensures Elements(Keys(RefsOf(d.dependencies))) == Elements(ks)
    ensures d.FindsAll()
  {
    d := new Dependency(target);
    assert Keys(RefsOf(d.dependencies)) == [] && Keys(dependsOn) == ks;
    d.Update(dependsOn);
    if d in d.dependencies {
      assert false;
    }
  }

  lemma PlaceOfEntry(ds: seq<Dependency>, r: BomRef, g: seq<Entry>, e: Entry, i: nat)
    requires |g| == |ds| && forall j :: 0 <= j < |ds| ==> g[j].ref == ds[j].ref.Key()
    requires e.ref == r.Key()
    requires i == PlaceFor(ds, r) && FindEntry(ds, r) == |ds|
    ensures InsertRight(EntryLess, g, e) == g[..i] + [e] + g[i..]
  {
    forall j | 0 <= j < |ds| ensures ds[j].GreaterThanFlat(r) <==> EntryLess(e, g[j]) {
      r.KeyCharacterizes(ds[j].ref);
      ds[j].ref.KeyCharacterizes(r);
    }
    InsertRightAt(EntryLess, g, e, i);
  }

  lemma KeyedOfInsert(ds: seq<Dependency>, d: Dependency, i: nat)
    requires i <= |ds|
    ensures var g := Keyed(EntriesOf(ds));
            Keyed(EntriesOf(ds[..i] + [d] + ds[i..])) ==
            g[..i] + [Entry(d.ref.Key(), Keys(RefsOf(d.dependencies)))] + g[i..]
  {
  }

  lemma TouchAllOneMore(g: seq<Entry>, ks: seq<RefKey>, i: nat)
    requires i < |ks|
    ensures TouchAll(g, ks[..i + 1]) == Touch(TouchAll(g, ks[..i]), ks[i], [])
  {
    assert ks[..i + 1][..i] == ks[..i];
  }

  function NestedIn(ds: seq<Dependency>): set<Dependency>
    reads ds
  {
    set d <- ds, n <- d.dependencies :: n
  }

  // Entries and what is nested in them as registration makes them: separate objects, and the
  // nested ones without dependencies of their own.
  ghost predicate BuiltEntries(ds: seq<Dependency>)
    reads ds, NestedIn(ds)
  {
    Distinct(ds) && (forall n <- NestedIn(ds) :: n !in ds && n.dependencies == [])
  }

  // The entries that would not find some of what they have, as its value changed after it was added.
  ghost function StaleIn(ds: seq<Dependency>): set<Dependency>
    reads ds, RefsIn(EntriesOf(ds))
  {
    NestedRefsAreIn(ds);
    set d <- ds | !d.FindsAll()
  }

  lemma NestedRefsAreIn(ds: seq<Dependency>)
    ensures forall d <- ds, r <- RefsOf(d.dependencies) :: r in RefsIn(EntriesOf(ds))
  {
    var es := EntriesOf(ds);
    forall d <- ds, r <- RefsOf(d.dependencies) ensures r in RefsIn(es) {
      var i :| 0 <= i < |ds| && ds[i] == d;
      assert es[i] in es && r in es[i].targets;
    }
  }

  lemma InsertedGraph(ds: seq<Dependency>, d: Dependency, g: seq<Entry>, i: nat)
    requires g == Keyed(EntriesOf(ds))
    requires i == PlaceFor(ds, d.ref) && FindEntry(ds, d.ref) == |ds|
    ensures Keyed(EntriesOf(ds[..i] + [d] + ds[i..])) ==
            InsertRight(EntryLess, g, Entry(d.ref.Key(), Keys(RefsOf(d.dependencies))))
  {
    PlaceOfEntry(ds, d.ref, g, Entry(d.ref.Key(), Keys(RefsOf(d.dependencies))), i);
    KeyedOfInsert(ds, d, i);
  }

  lemma InsertedBuilt(ds: seq<Dependency>, d: Dependency, i: nat)
    requires i <= |ds|
    requires BuiltEntries(ds) && d !in ds && d !in NestedIn(ds)
    requires forall n <- d.dependencies :: n !in ds && n != d && n.dependencies == []
    ensures BuiltEntries(ds[..i] + [d] + ds[i..])
  {
  }

  lemma InsertedAre(ds: seq<Dependency>, d: Dependency, i: nat)
    requires i <= |ds|
    ensures forall x <- ds[..i] + [d] + ds[i..] :: x in ds || x == d
  {
  }

  // `add` on the sorted set of entries, for a ref that has none yet. `e` is the new entry.
  method WithEntry(ds: seq<Dependency>, target: BomRef, dependsOn: seq<BomRef>,
                   ghost g: seq<Entry>, ghost ks: seq<RefKey>)
    returns (all: seq<Dependency>, ghost e: Entry)
    requires FindEntry(ds, target) == |ds| && g == Keyed(EntriesOf(ds)) && ks == Keys(dependsOn)
    ensures forall d <- all :: d in ds || (fresh(d) && d.FindsAll())
    ensures e.ref == target.Key() && WellSorted(e.targets) && Elements(e.targets) == Elements(ks)
    ensures Keyed(EntriesOf(all)) == InsertRight(EntryLess, g, e)
    ensures old(BuiltEntries(ds)) ==> BuiltEntries(all)
  {
    ghost var built := BuiltEntries(ds);
    var d := NewEntry(target, dependsOn, ks);
    var i := PlaceFor(ds, target);
    all := ds[..i] + [d] + ds[i..];
    InsertedAre(ds, d, i);
    e := Entry(target.Key(), Keys(RefsOf(d.dependencies)));
    InsertedGraph(ds, d, g, i);
    if built {
      InsertedBuilt(ds, d, i);
    }
  }

  // Some entry has a target more than once.
  ghost predicate ListsTwice(g: seq<Entry>) {
    exists e <- g :: !Distinct(e.targets)
  }

  // From `g` in order `h` is in order, if what is added again is found, and else lists something twice.
  ghost predicate StaysInOrder(g: seq<Entry>, h: seq<Entry>, found: bool) {
    WellFormed(g) ==> if found then WellFormed(h) else ListsTwice(h)
  }

  // `f` is `e` after an update that found what it was to add again, or listed it twice.
  ghost predicate UpdatedTargets(e: Entry, f: Entry, found: bool) {
    WellSorted(e.targets) ==> if found then WellSorted(f.targets) else !Distinct(f.targets)
  }

  // What updating one entry means for entries in order: they stay so, if what is added again is found;
  // and else something is listed twice.
  lemma UpdatedForm(g: seq<Entry>, h: seq<Entry>, i: nat, found: bool)
    requires i < |g| && |h| == |g| && h == g[i := h[i]] && h[i].ref == g[i].ref
    requires UpdatedTargets(g[i], h[i], found)
    ensures StaysInOrder(g, h, found)
  {
    assert g[i] in g && h[i] in h;
    if WellFormed(g) && found {
      ReplaceKeepsForm(g, i, h[i]);
    }
  }

  lemma OnlyOneGrew(ds: seq<Dependency>, g: seq<Entry>, h: seq<Entry>, i: nat)
    requires Distinct(ds) && |ds| == |g| == |h| && i < |ds|
    requires forall j :: 0 <= j < |ds| ==> h[j] == g[j] || ds[j] == ds[i]
    ensures h == g[i := h[i]]
  {
  }

  // An entry that is already there takes up further dependencies, in place. Other objects stay.
  method GrowEntry(d: Dependency, dependsOn: seq<BomRef>,
                   ghost ds: seq<Dependency>, ghost i: nat, ghost g: seq<Entry>, ghost ks: seq<RefKey>)
    requires i < |ds| && ds[i] == d && g == Keyed(EntriesOf(ds)) && ks == Keys(dependsOn)
    modifies d
    ensures var h := Keyed(EntriesOf(ds));
            && IsGrown(g[i], h[i], d.ref.Key(), ks)
            && (forall j :: 0 <= j < |ds| && ds[j] != d ==> h[j] == g[j])
            && (old(AllFlat(d.dependencies)) ==> UpdatedTargets(g[i], h[i], old(d.Missed(ks)) == {}))
    ensures forall n <- d.dependencies :: n in old(d.dependencies) || (fresh(n) && n.dependencies == [])
    ensures old(d.FindsAll()) ==> d.FindsAll()
  {
    ghost var es := EntriesOf(ds);
    d.Update(dependsOn);
    assert Keyed(es) == g;
    forall j | 0 <= j < |ds| && ds[j] != d ensures EntriesOf(ds)[j] == es[j] {
    }
  }

  // Among separate entries this is the only one to change.
  method GrowBuilt(d: Dependency, dependsOn: seq<BomRef>,
                   ghost ds: seq<Dependency>, ghost i: nat, ghost g: seq<Entry>, ghost ks: seq<RefKey>)
    requires i < |ds| && ds[i] == d && g == Keyed(EntriesOf(ds)) && ks == Keys(dependsOn)
    modifies d
    ensures var h := Keyed(EntriesOf(ds));
            && IsGrown(g[i], h[i], d.ref.Key(), ks)
            && (forall j :: 0 <= j < |ds| ==> SameOrGrown(g[j], h[j], d.ref.Key(), ks))
            && (old(BuiltEntries(ds)) ==> StaysInOrder(g, h, old(d.Missed(ks)) == {}))
    ensures old(BuiltEntries(ds)) ==> BuiltEntries(ds)
    ensures StaleIn(ds) <= old(StaleIn(ds))
  {
    ghost var built, found, nested := BuiltEntries(ds), d.Missed(ks) == {}, NestedIn(ds);
    GrowEntry(d, dependsOn, ds, i, g, ks);
    ghost var h := Keyed(EntriesOf(ds));
    assert forall j :: 0 <= j < |ds| && ds[j] == d ==> g[j] == g[i] && h[j] == h[i];
    if built {
      forall e <- ds, n <- e.dependencies ensures n !in ds && n.dependencies == [] {
        assert n in nested || fresh(n);
      }
      OnlyOneGrew(ds, g, h, i);
      UpdatedForm(g, h, i, found);
    }
  }

  // `h` is `g` with the target `k` and its edges to `ks`.
  ghost predicate HasTarget(g: seq<Entry>, h: seq<Entry>, k: RefKey, ks: seq<RefKey>) {
    Nodes(h) == Nodes(g) + {k} && Edges(h) == Edges(g) + Star(k, ks) && (ks == [] ==> h == Touch(g, k, []))
  }

  // An entry that grew is what a known target with dependents takes.
  lemma GrownEntryHasTarget(g: seq<Entry>, h: seq<Entry>, k: RefKey, ks: seq<RefKey>, i: nat)
    requires |g| == |h| && i < |g| && ks != []
    requires IsGrown(g[i], h[i], k, ks)
    requires forall j :: 0 <= j < |g| ==> SameOrGrown(g[j], h[j], k, ks)
    ensures HasTarget(g, h, k, ks)
  {
    GrowthRelation(g, h, k, ks, i);
  }

  lemma KnownHasTarget(g: seq<Entry>, k: RefKey)
    requires Find(g, k) < |g|
    ensures HasTarget(g, g, k, [])
  {
    TouchRelation(g, k, []);
    assert g[Find(g, k) := Grow(g[Find(g, k)], [])] == g;
  }

  lemma NewEntryHasTarget(g: seq<Entry>, e: Entry, k: RefKey, ks: seq<RefKey>)
    requires e.ref == k && Elements(e.targets) == Elements(ks) && WellSorted(e.targets) && Find(g, k) == |g|
    ensures HasTarget(g, InsertRight(EntryLess, g, e), k, ks)
    ensures WellFormed(g) ==> WellFormed(InsertRight(EntryLess, g, e))
  {
    InsertRelation(g, e);
    StarByElements(k, ks, e.targets, []);
    if WellFormed(g) {
      InsertKeepsForm(g, e);
    }
    EmptyIffNoElements(e.targets);
  }

  // From `g` in order, if what is added again is found, `h` is in order, and as registration lists it
  // unless two refs lack values; and else it lists something twice.
  ghost predicate ListedAsRegistered(g: seq<Entry>, h: seq<Entry>, k: RefKey, ks: seq<RefKey>, found: bool) {
    WellFormed(g) ==>
      if found then WellFormed(h) && (Separable(GraphKeys(h)) ==> h == Register(g, k, ks))
      else ListsTwice(h)
  }

  // `h` is `g` with the target, its dependents and the edges between them, and nothing else.
  ghost predicate HasRegistered(g: seq<Entry>, h: seq<Entry>, k: RefKey, ks: seq<RefKey>) {
    Nodes(h) == Nodes(g) + {k} + Elements(ks) && Edges(h) == Edges(g) + Star(k, ks) &&
    (ks == [] ==> h == Touch(g, k, []))
  }

  // Registering the target and then its dependents is one registration.
  lemma TwoStages(before: seq<Entry>, middle: seq<Entry>, after: seq<Entry>, k: RefKey, ks: seq<RefKey>, found: bool)
    requires HasTarget(before, middle, k, ks)
    requires after == TouchAll(middle, ks)
    ensures HasRegistered(before, after, k, ks)
    ensures StaysInOrder(before, middle, found) ==> ListedAsRegistered(before, after, k, ks, found)
  {
    TouchAllRelation(middle, ks);
    RegisterRelation(before, k, ks);
    if WellFormed(before) && WellFormed(middle) {
      TouchAllKeepsForm(middle, ks);
      RegisterKeepsForm(before, k, ks);
      if Separable(GraphKeys(after)) {
        GraphDeterminesEntries(after, Register(before, k, ks));
      }
    }
    if e :| e in middle && !Distinct(e.targets) {
      TouchAllOnlyAddsBareEntries(middle, ks);
      assert e in multiset(middle) && e in multiset(after);
    }
  }

  lemma KeysOfConcat(refs: seq<BomRef>, more: seq<BomRef>)
    ensures Elements(Keys(refs + more)) == Elements(Keys(refs)) + Elements(Keys(more))
  {
    assert Keys(refs + more) == Keys(refs) + Keys(more);
    ElementsOfConcat(Keys(refs), Keys(more));
  }

  lemma KeysOfComponents(cs: seq<Component>)
    ensures Elements(Keys(ComponentRefs(cs))) == set c <- cs :: c.bomRef.Key()
  {
    var ks := Keys(ComponentRefs(cs));
    assert forall i :: 0 <= i < |cs| ==> ks[i] in ks && cs[i] in cs && ks[i] == cs[i].bomRef.Key();
  }

  lemma KeysOfServices(ss: seq<Service>)
    ensures Elements(Keys(ServiceRefs(ss))) == set s <- ss :: s.bomRef.Key()
  {
    var ks := Keys(ServiceRefs(ss));
    assert forall i :: 0 <= i < |ss| ==> ks[i] in ks && ss[i] in ss && ks[i] == ss[i].bomRef.Key();
  }

  // The keys of what validation registers: of the root, the components listed and the services listed.
  lemma RegisteredKeys(c: Contents)
    ensures Elements(Keys(c.Dependables())) ==
            (if c.metadataComponent.Some? then {c.metadataComponent.value.bomRef.Key()} else {}) +
            (set x <- c.components :: x.bomRef.Key()) + (set s <- c.services :: s.bomRef.Key())
  {
    var root := if c.metadataComponent.Some? then [c.metadataComponent.value.bomRef] else [];
    assert ComponentRefs(c.Roots()) == root + ComponentRefs(c.components);
    assert c.metadataComponent.Some? ==> Keys(root) == [c.metadataComponent.value.bomRef.Key()];
    KeysOfConcat(root, ComponentRefs(c.components));
    KeysOfConcat(ComponentRefs(c.Roots()), ServiceRefs(c.services));
    KeysOfComponents(c.components);
    KeysOfServices(c.services);
  }

  // What the registrations of validation leave of a graph.
  lemma RegisteredRelation(c: Contents, g: seq<Entry>, h: seq<Entry>)
    requires h == TouchAll(g, Keys(c.Dependables()))
    ensures Nodes(h) ==
            Nodes(g) + (if c.metadataComponent.Some? then {c.metadataComponent.value.bomRef.Key()} else {}) +
            (set x <- c.components :: x.bomRef.Key()) + (set s <- c.services :: s.bomRef.Key())
    ensures Edges(h) == Edges(g)
  {
    TouchAllRelation(g, Keys(c.Dependables()));
    RegisteredKeys(c);
  }

  datatype Validation = Valid | UnknownComponentDependency(missing: set<RefKey>) | LicenseExpressionAlongWithOthers

  // The checks of `validate`: unknown graph refs are reported before license mixes, and no mix is
  // missed although of equal components only one is looked at.
  function Checked(contents: Contents, st: Store, g: seq<Entry>): (r: Validation)
    ensures r.Valid? <==> GraphKeys(g) <= contents.KnownKeys(st) && !contents.AnyMixed()
    ensures r.UnknownComponentDependency? <==> exists k <- GraphKeys(g) :: k !in contents.KnownKeys(st)
    ensures r.UnknownComponentDependency? ==>
              r.missing <= GraphKeys(g) && r.missing !! contents.KnownKeys(st) &&
              GraphKeys(g) <= r.missing + contents.KnownKeys(st)
  {
    contents.NoMixIsHidden(st);
    if !(GraphKeys(g) <= contents.KnownKeys(st)) then
      UnknownComponentDependency(GraphKeys(g) - contents.KnownKeys(st))
    else if contents.AnyMixedSeen(st) then LicenseExpressionAlongWithOthers
    else Valid
  }

  // A license repository that validation answers for: of the metadata, of the root or a component listed
  // or one below these at any depth, or of a service listed.
  ghost predicate IsChecked(contents: Contents, licenses: seq<Value>) {
    licenses == contents.metadataLicenses ||
    (contents.metadataComponent.Some? &&
     exists c <- Preorder(contents.metadataComponent.value) :: c.licenses == licenses) ||
    (exists c <- PreorderAll(contents.components) :: c.licenses == licenses) ||
    (exists s <- contents.services :: s.licenses == licenses)
  }

  // A license mix is reported exactly if every graph ref is known and some such repository holds an
  // expression and anything else.
  lemma MixIsReportedIff(contents: Contents, st: Store, g: seq<Entry>)
    ensures Checked(contents, st, g).LicenseExpressionAlongWithOthers? <==>
            (forall k <- GraphKeys(g) :: k in contents.KnownKeys(st)) &&
            exists licenses: seq<Value> | IsChecked(contents, licenses) ::
              |licenses| > 1 && exists l <- licenses :: l.Object? && l.cls == LicenseExpression
  {
    if licenses: seq<Value> :| IsChecked(contents, licenses) && Mixed(licenses) {
      CheckedMixIsSeen(contents, licenses);
    }
    if contents.AnyMixed() {
      var licenses := MixIsChecked(contents);
      assert IsChecked(contents, licenses) && |licenses| > 1;
    }
    forall licenses: seq<Value>
      ensures Mixed(licenses) <==> |licenses| > 1 && exists l <- licenses :: l.Object? && l.cls == LicenseExpression
    {
    }
  }

  lemma CheckedMixIsSeen(contents: Contents, licenses: seq<Value>)
    requires IsChecked(contents, licenses) && Mixed(licenses)
    ensures contents.AnyMixed()
  {
    if contents.metadataComponent.Some? {
      forall c <- Preorder(contents.metadataComponent.value) ensures c in PreorderAll(contents.Roots()) {
        contents.ComponentsAre(c);
      }
    }
    forall c <- PreorderAll(contents.components) ensures c in PreorderAll(contents.Roots()) {
      contents.ComponentsAre(c);
    }
  }

  lemma MixIsChecked(contents: Contents) returns (licenses: seq<Value>)
    requires contents.AnyMixed()
    ensures IsChecked(contents, licenses) && Mixed(licenses)
  {
    licenses := contents.metadataLicenses;
    if c :| c in PreorderAll(contents.Roots()) && Mixed(c.licenses) {
      contents.ComponentsAre(c);
      licenses := c.licenses;
    } else if s :| s in contents.services && Mixed(s.licenses) {
      licenses := s.licenses;
    }
  }

  class Bom {
    var contents: Contents
    var dependencies: seq<Dependency>  // lists a sorted set

    function EntrySet(): set<Dependency>
      reads this
    {
      set d <- dependencies
    }

    function Graph(): seq<Entry>
      reads this, dependencies, RefsIn(EntriesOf(dependencies))
    {
      Keyed(EntriesOf(dependencies))
    }

    ghost predicate Built()
      reads this, EntrySet(), NestedIn(dependencies)
    {
      BuiltEntries(dependencies)
    }

    ghost function Stale(): set<Dependency>
      reads this, dependencies, RefsIn(EntriesOf(dependencies))
    {
      StaleIn(dependencies)
    }

    // What the entry of the target has of the given keys already, but would not find.
    ghost function Missed(target: BomRef, ks: seq<RefKey>): set<Dependency>
      reads this, dependencies, RefsOf(dependencies), RefsIn(EntriesOf(dependencies)), target
    {
      NestedRefsAreIn(dependencies);
      var i := FindEntry(dependencies, target);
      if i < |dependencies| then assert dependencies[i] in dependencies; dependencies[i].Missed(ks) else {}
    }

    // The steps of a registration are stated on `g`, the graph before, on the key `k` of the target and
    // the keys `ks` of what it depends on.

    // A ref that is new to the graph gets an entry, in its place among the others.
    method AddEntry(target: BomRef, dependsOn: seq<BomRef>, ghost g: seq<Entry>, ghost ks: seq<RefKey>)
      returns (ghost e: Entry)
      requires g == Graph() && ks == Keys(dependsOn) && FindEntry(dependencies, target) == |dependencies|
      modifies this`dependencies
      ensures forall d <- dependencies :: d in old(dependencies) || fresh(d)
      ensures e.ref == target.Key() && WellSorted(e.targets) && Elements(e.targets) == Elements(ks)
      ensures Graph() == InsertRight(EntryLess, g, e)
      ensures old(Built()) ==> Built()
      ensures forall d <- dependencies :: d in old(dependencies) || d.FindsAll()
    {
      var all;
      all, e := WithEntry(dependencies, target, dependsOn, g, ks);
      ghost var es := EntriesOf(all);
      dependencies := all;
      assert Keyed(es) == InsertRight(EntryLess, g, e);
      assert EntriesOf(dependencies) == es;
    }

    // A ref that has no entry gets one.
    method AddTarget(target: BomRef, dependsOn: seq<BomRef>,
                     ghost g: seq<Entry>, ghost k: RefKey, ghost ks: seq<RefKey>)
      requires g == Graph() && k == target.Key() && ks == Keys(dependsOn)
      requires FindEntry(dependencies, target) == |dependencies|
      modifies this`dependencies
      ensures forall d <- dependencies :: d in old(dependencies) || fresh(d)
      ensures HasTarget(g, Graph(), k, ks) && (WellFormed(g) ==> WellFormed(Graph()))
      ensures old(Built()) ==> Built()
      ensures Stale() <= old(Stale())
    {
      FoundAtKey(dependencies, target, g);
      ghost var e := AddEntry(target, dependsOn, g, ks);
      NewEntryHasTarget(g, e, k, ks);
    }

    // A ref that has an entry: dependents are added there.
    method GrowTarget(i: nat, target: BomRef, dependsOn: seq<BomRef>,
                      ghost g: seq<Entry>, ghost k: RefKey, ghost ks: seq<RefKey>)
      requires g == Graph() && k == target.Key() && ks == Keys(dependsOn)
      requires i == FindEntry(dependencies, target) < |dependencies| && dependsOn != []
      modifies EntrySet()
      ensures HasTarget(g, Graph(), k, ks)
      ensures old(Built()) ==> Built() && StaysInOrder(g, Graph(), old(Missed(target, ks)) == {})
      ensures Stale() <= old(Stale())
    {
      FoundAtKey(dependencies, target, g);
      GrowBuilt(dependencies[i], dependsOn, dependencies, i, g, ks);
      GrownEntryHasTarget(g, Graph(), k, ks, i);
    }

    // The part of a registration that concerns the target's own entry.
    method RegisterTarget(target: BomRef, dependsOn: seq<BomRef>,
                          ghost g: seq<Entry>, ghost k: RefKey, ghost ks: seq<RefKey>)
      requires g == Graph() && k == target.Key() && ks == Keys(dependsOn)
      modifies this`dependencies, EntrySet()
      ensures forall d <- dependencies :: d in old(dependencies) || fresh(d)
      ensures HasTarget(g, Graph(), k, ks)
      ensures old(Built()) ==> Built() && StaysInOrder(g, Graph(), old(Missed(target, ks)) == {})
      ensures Stale() <= old(Stale())
    {
      var i := FindEntry(dependencies, target);
      FoundAtKey(dependencies, target, g);
      if i == |dependencies| {
        AddTarget(target, dependsOn, g, k, ks);
      } else if dependsOn != [] {
        GrowTarget(i, target, dependsOn, g, k, ks);
      } else {
        KnownHasTarget(g, k);
      }
    }

    // A registration without dependents.
    method RegisterBare(target: BomRef, ghost g: seq<Entry>, ghost k: RefKey)
      requires g == Graph() && k == target.Key()
      modifies this`dependencies, EntrySet()
      ensures forall d <- dependencies :: d in old(dependencies) || fresh(d)
      ensures Graph() == Touch(g, k, [])
      ensures old(Built()) ==> Built()
      ensures Stale() <= old(Stale())
      decreases 1
    {
      RegisterDependency(target, []);
    }

    // The dependents get entries of their own, without dependencies.
    method RegisterAll(refs: seq<BomRef>, ghost g: seq<Entry>, ghost ks: seq<RefKey>)
      requires g == Graph() && ks == Keys(refs)
      modifies this`dependencies, EntrySet()
      ensures forall d <- dependencies :: d in old(dependencies) || fresh(d)
      ensures Graph() == TouchAll(g, ks)
      ensures old(Built()) ==> Built()
      ensures Stale() <= old(Stale())
      decreases 2, 0
    {
      ghost var built, entries, stale := Built(), dependencies, Stale();
      for i := 0 to |refs|
        invariant forall d <- dependencies :: d in entries || fresh(d)
        invariant Graph() == TouchAll(g, ks[..i])
        invariant built ==> Built()
        invariant Stale() <= stale
      {
        TouchAllOneMore(g, ks, i);
        assert refs[i].Key() == ks[i];
        RegisterBare(refs[i], Graph(), ks[i]);
      }
      assert ks[..|refs|] == ks;
    }

    // The part that concerns the dependents; `found` tells how the first part went.
    method RegisterDependents(dependsOn: seq<BomRef>, ghost g: seq<Entry>, ghost k: RefKey, ghost ks: seq<RefKey>,
                              ghost found: bool)
      requires HasTarget(g, Graph(), k, ks) && ks == Keys(dependsOn) && dependsOn != []
      modifies this`dependencies, EntrySet()
      ensures forall d <- dependencies :: d in old(dependencies) || fresh(d)
      ensures HasRegistered(g, Graph(), k, ks)
      ensures old(StaysInOrder(g, Graph(), found)) ==> ListedAsRegistered(g, Graph(), k, ks, found)
      ensures old(Built()) ==> Built()
      ensures Stale() <= old(Stale())
      decreases 2, 1
    {
      ghost var middle := Graph();
      RegisterAll(dependsOn, middle, ks);
      TwoStages(g, middle, Graph(), k, ks, found);
    }

    // A registration without dependents has no second part.
    method RegisterAlone(target: BomRef, ghost g: seq<Entry>, ghost k: RefKey, ghost found: bool)
      requires g == Graph() && k == target.Key() && found == (Missed(target, []) == {})
      modifies this`dependencies, EntrySet()
      ensures forall d <- dependencies :: d in old(dependencies) || fresh(d)
      ensures HasRegistered(g, Graph(), k, [])
      ensures old(Built()) ==> Built() && ListedAsRegistered(g, Graph(), k, [], found)
      ensures Stale() <= old(Stale())
    {
      assert Keys([]) == [];
      RegisterTarget(target, [], g, k, []);
      TwoStages(g, Graph(), Graph(), k, [], found);
    }

    // With dependents both parts follow each other.
    method RegisterBoth(target: BomRef, dependsOn: seq<BomRef>,
                        ghost g: seq<Entry>, ghost k: RefKey, ghost ks: seq<RefKey>, ghost found: bool)
      requires g == Graph() && k == target.Key() && ks == Keys(dependsOn) && found == (Missed(target, ks) == {})
      requires dependsOn != []
      modifies this`dependencies, EntrySet()
      ensures forall d <- dependencies :: d in old(dependencies) || fresh(d)
      ensures HasRegistered(g, Graph(), k, ks)
      ensures old(Built()) ==> Built() && ListedAsRegistered(g, Graph(), k, ks, found)
      ensures Stale() <= old(Stale())
      decreases 3
    {
      RegisterTarget(target, dependsOn, g, k, ks);
      forall i | 0 <= i < |dependsOn| ensures Keys(dependsOn)[i] == ks[i] {
      }
      RegisterDependents(dependsOn, g, k, ks, found);
    }

    /** `register_dependency`; the target and its dependents enter by their bom-refs. */
    method RegisterDependency(target: BomRef, dependsOn: seq<BomRef>)
      modifies this`dependencies, EntrySet()
      ensures fresh(EntrySet() - old(EntrySet()))
      ensures HasRegistered(old(Graph()), Graph(), old(target.Key()), old(Keys(dependsOn)))
      ensures old(Built()) ==>
                Built() && ListedAsRegistered(old(Graph()), Graph(), old(target.Key()), old(Keys(dependsOn)),
                                              old(Missed(target, Keys(dependsOn))) == {})
      ensures Stale() <= old(Stale())
      decreases if dependsOn == [] then 0 else 4
    {
      ghost var ks := Keys(dependsOn);
      if dependsOn == [] {
        RegisterAlone(target, Graph(), target.Key(), Missed(target, ks) == {});
      } else {
        RegisterBoth(target, dependsOn, Graph(), target.Key(), ks, Missed(target, ks) == {});
      }
    }

    // ---------- validation ----------

    function AllRefs(): set<BomRef>
      reads this, EntrySet()
    {
      contents.DocumentSet() + RefsIn(EntriesOf(dependencies))
    }

    // The values of all refs at present.
    function Values(): Store
      reads this, EntrySet(), AllRefs()
    {
      Snapshot(AllRefs())
    }

    // The present values and entries decide the graph.
    lemma DecidedBy(st: Store, es: seq<RefEntry>)
      requires EntriesOf(dependencies) == es
      requires st.Keys == contents.DocumentSet() + RefsIn(es)
      requires forall r <- st.Keys :: r.value == ValueIn(st, r)
      ensures Values() == st
      ensures Graph() == KeyedIn(st, es)
      ensures Keys(contents.Dependables()) == KeysIn(st, contents.Dependables())
    {
      KeyedIsKeyedIn(es, st);
      forall r <- contents.Dependables() ensures r in contents.DocumentSet() {
        contents.DependablesAreReached(st, r);
        contents.WalkedIsWritten(st, r);
      }
    }

    /** `validate`; its warning about a root component without dependencies is left out. */
    method Validate() returns (r: Validation)
      modifies this`dependencies, EntrySet()
      ensures fresh(EntrySet() - old(EntrySet()))
      ensures Graph() == TouchAll(old(Graph()), Keys(contents.Dependables()))
      ensures Nodes(Graph()) ==
              old(Nodes(Graph())) +
              (if contents.metadataComponent.Some? then {contents.metadataComponent.value.bomRef.Key()} else {}) +
              (set c <- contents.components :: c.bomRef.Key()) + (set s <- contents.services :: s.bomRef.Key())
      ensures Edges(Graph()) == old(Edges(Graph()))
      ensures old(Built()) ==> Built()
      ensures Stale() <= old(Stale())
      ensures Snapshot(contents.DocumentSet()) == old(Snapshot(contents.DocumentSet()))
      ensures r == Checked(contents, Values(), Graph())
    {
      ghost var refs, st := contents.DocumentSet(), Snapshot(contents.DocumentSet());
      AreAllocated(refs);
      ghost var g, ks := Graph(), Keys(contents.Dependables());
      RegisterAll(contents.Dependables(), g, ks);
      assert Keys(contents.Dependables()) == ks;
      RegisteredRelation(contents, g, Graph());
      SnapshotIs(refs, st);
      r := Checked(contents, Values(), Graph());
    }
  }
}
