/**
 * The dependency graph as a value: the sorted top-level entries of a BOM, each with the refs it
 * depends on. Nested entries are flat, so their refs are all there is to know about them.
 */
module Graph {
  import opened BomRefs
  import opened Text
  import opened SortedSets
  import opened Compare

  datatype Entry = Entry(ref: RefKey, targets: seq<RefKey>)

  datatype Call = Call(target: RefKey, dependsOn: seq<RefKey>)

  // ---------- registration ----------

  // Position of the first entry for a ref, or the number of entries if there is none.
  function Find(g: seq<Entry>, k: RefKey): (i: nat)
    ensures i <= |g|
    ensures i < |g| ==> g[i].ref == k
    ensures forall j :: 0 <= j < i ==> g[j].ref != k
  {
    if g == [] then 0
    else if g[0].ref == k then 0
    else 1 + Find(g[1..], k)
  }

  // Entries with different refs compare by their refs; nested dependencies are not consulted.
  predicate EntryLess(a: Entry, b: Entry) {
    KeyLess(a.ref, b.ref)
  }

  function Grow(e: Entry, ds: seq<RefKey>): Entry {
    e.(targets := AddAll(KeyLess, e.targets, ds))
  }

  // What one call does to the entry of its own target.
  function Touch(g: seq<Entry>, k: RefKey, ds: seq<RefKey>): seq<Entry> {
    var i := Find(g, k);
    if i < |g| then g[i := Grow(g[i], ds)]
    else InsertRight(EntryLess, g, Grow(Entry(k, []), ds))
  }

  function TouchAll(g: seq<Entry>, ks: seq<RefKey>): seq<Entry> {
    if ks == [] then g else Touch(TouchAll(g, ks[..|ks| - 1]), ks[|ks| - 1], [])
  }

  /** `register_dependency` */
  function Register(g: seq<Entry>, k: RefKey, ds: seq<RefKey>): seq<Entry> {
    TouchAll(Touch(g, k, ds), ds)
  }

  function Run(g: seq<Entry>, calls: seq<Call>): seq<Entry> {
    if calls == [] then g
    else Register(Run(g, calls[..|calls| - 1]), calls[|calls| - 1].target, calls[|calls| - 1].dependsOn)
  }

  // ---------- the relation the entries stand for ----------

  function Nodes(g: seq<Entry>): set<RefKey> {
    set e | e in g :: e.ref
  }

  function Edges(g: seq<Entry>): set<(RefKey, RefKey)> {
    set e, t | e in g && t in e.targets :: (e.ref, t)
  }

  function Star(k: RefKey, ds: seq<RefKey>): set<(RefKey, RefKey)> {
    set d | d in ds :: (k, d)
  }

  function CallNodes(calls: seq<Call>): set<RefKey> {
    set c | c in calls :: c.target
  }

  function CallEdges(calls: seq<Call>): set<(RefKey, RefKey)> {
    set c, d | c in calls && d in c.dependsOn :: (c.target, d)
  }

  function Targets(edges: set<(RefKey, RefKey)>): set<RefKey> {
    set e | e in edges :: e.1
  }

  // Every edge ends in a node that has an entry of its own.
  predicate Closed(g: seq<Entry>) {
    Targets(Edges(g)) <= Nodes(g)
  }

  lemma RelationOfConcat(g: seq<Entry>, h: seq<Entry>)
    ensures Nodes(g + h) == Nodes(g) + Nodes(h)
    ensures Edges(g + h) == Edges(g) + Edges(h)
  {
  }

  lemma RelationOfOne(e: Entry)
    ensures Nodes([e]) == {e.ref}
    ensures Edges([e]) == Star(e.ref, e.targets)
  {
  }

  lemma {:induction false} InsertRelation(g: seq<Entry>, e: Entry)
    ensures Nodes(InsertRight(EntryLess, g, e)) == Nodes(g) + {e.ref}
    ensures Edges(InsertRight(EntryLess, g, e)) == Edges(g) + Star(e.ref, e.targets)
  {
    RelationOfOne(e);
    if g != [] {
      assert g == [g[0]] + g[1..];
      if EntryLess(e, g[0]) {
        RelationOfConcat([e], g);
      } else {
        InsertRelation(g[1..], e);
        RelationOfConcat([g[0]], g[1..]);
        RelationOfConcat([g[0]], InsertRight(EntryLess, g[1..], e));
      }
    }
  }

  lemma GrowRelation(g: seq<Entry>, i: nat, ds: seq<RefKey>)
    requires i < |g|
    ensures Nodes(g[i := Grow(g[i], ds)]) == Nodes(g)
    ensures Edges(g[i := Grow(g[i], ds)]) == Edges(g) + Star(g[i].ref, ds)
  {
    var before, after := g[..i], g[i + 1..];
    assert g == before + ([g[i]] + after);
    assert g[i := Grow(g[i], ds)] == before + ([Grow(g[i], ds)] + after);
    RelationOfConcat(before, [g[i]] + after);
    RelationOfConcat([g[i]], after);
    RelationOfConcat(before, [Grow(g[i], ds)] + after);
    RelationOfConcat([Grow(g[i], ds)], after);
    RelationOfOne(g[i]);
    RelationOfOne(Grow(g[i], ds));
    StarOfAddAll(g[i].ref, g[i].targets, ds);
  }

  // `f` is `e`, or the entry `e` of `k` with dependencies `ds` added.
  ghost predicate SameOrGrown(e: Entry, f: Entry, k: RefKey, ds: seq<RefKey>) {
    e.ref == f.ref &&
    (Elements(f.targets) == Elements(e.targets) || IsGrown(e, f, k, ds))
  }

  ghost predicate IsGrown(e: Entry, f: Entry, k: RefKey, ds: seq<RefKey>) {
    e.ref == f.ref == k && Elements(f.targets) == Elements(e.targets) + Elements(ds)
  }

  lemma OneGrows(e: Entry, f: Entry, k: RefKey, ds: seq<RefKey>)
    requires SameOrGrown(e, f, k, ds)
    ensures Nodes([f]) == Nodes([e])
    ensures Edges([e]) <= Edges([f]) <= Edges([e]) + Star(k, ds)
    ensures IsGrown(e, f, k, ds) ==> Star(k, ds) <= Edges([f])
  {
    RelationOfOne(e);
    RelationOfOne(f);
    StarByElements(e.ref, e.targets, f.targets, ds);
  }

  lemma {:induction false} GrowthBounds(g: seq<Entry>, h: seq<Entry>, k: RefKey, ds: seq<RefKey>)
    requires |g| == |h|
    requires forall i :: 0 <= i < |g| ==> SameOrGrown(g[i], h[i], k, ds)
    ensures Nodes(h) == Nodes(g)
    ensures Edges(g) <= Edges(h) <= Edges(g) + Star(k, ds)
  {
    if g != [] {
      assert g == [g[0]] + g[1..] && h == [h[0]] + h[1..];
      GrowthBounds(g[1..], h[1..], k, ds);
      RelationOfConcat([g[0]], g[1..]);
      RelationOfConcat([h[0]], h[1..]);
      OneGrows(g[0], h[0], k, ds);
    }
  }

  // Growing some of the entries of one ref, in whatever place, adds just the edges of that ref.
  lemma GrowthRelation(g: seq<Entry>, h: seq<Entry>, k: RefKey, ds: seq<RefKey>, i: nat)
    requires |g| == |h| && i < |g|
    requires forall j :: 0 <= j < |g| ==> SameOrGrown(g[j], h[j], k, ds)
    requires IsGrown(g[i], h[i], k, ds)
    ensures Nodes(h) == Nodes(g)
    ensures Edges(h) == Edges(g) + Star(k, ds)
  {
    GrowthBounds(g, h, k, ds);
    OneGrows(g[i], h[i], k, ds);
    assert h == h[..i] + ([h[i]] + h[i + 1..]);
    RelationOfConcat(h[..i], [h[i]] + h[i + 1..]);
    RelationOfConcat([h[i]], h[i + 1..]);
  }

  lemma StarByElements(k: RefKey, ks: seq<RefKey>, grown: seq<RefKey>, ds: seq<RefKey>)
    ensures Elements(grown) == Elements(ks) ==> Star(k, grown) == Star(k, ks)
    ensures Elements(grown) == Elements(ks) + Elements(ds) ==> Star(k, grown) == Star(k, ks) + Star(k, ds)
    ensures Elements(ds) <= Elements(grown) ==> Star(k, ds) <= Star(k, grown)
  {
    assert forall x :: (x in ks <==> x in Elements(ks)) && (x in ds <==> x in Elements(ds))
                       && (x in grown <==> x in Elements(grown));
    assert forall p :: p in Star(k, grown) <==> p.0 == k && p.1 in Elements(grown);
    assert forall p :: p in Star(k, ks) <==> p.0 == k && p.1 in Elements(ks);
    assert forall p :: p in Star(k, ds) <==> p.0 == k && p.1 in Elements(ds);
  }

  lemma StarOfAddAll(k: RefKey, ks: seq<RefKey>, ds: seq<RefKey>)
    ensures Star(k, AddAll(KeyLess, ks, ds)) == Star(k, ks) + Star(k, ds)
  {
    AddAllKeeps(KeyLess, ks, ds);
    var all := AddAll(KeyLess, ks, ds);
    forall p ensures p in Star(k, all) <==> p in Star(k, ks) + Star(k, ds) {
      assert p.1 in all <==> p.1 in ks || p.1 in ds;
    }
    assert Star(k, all) == Star(k, ks) + Star(k, ds);
  }

  lemma TouchRelation(g: seq<Entry>, k: RefKey, ds: seq<RefKey>)
    ensures Nodes(Touch(g, k, ds)) == Nodes(g) + {k}
    ensures Edges(Touch(g, k, ds)) == Edges(g) + Star(k, ds)
  {
    var i := Find(g, k);
    if i < |g| {
      assert g[i] in g;
      GrowRelation(g, i, ds);
    } else {
      StarOfAddAll(k, [], ds);
      InsertRelation(g, Grow(Entry(k, []), ds));
    }
  }

  lemma {:induction false} TouchAllRelation(g: seq<Entry>, ks: seq<RefKey>)
    ensures Nodes(TouchAll(g, ks)) == Nodes(g) + Elements(ks)
    ensures Edges(TouchAll(g, ks)) == Edges(g)
  {
    if ks != [] {
      var front, last := ks[..|ks| - 1], ks[|ks| - 1];
      assert ks == front + [last];
      TouchAllRelation(g, front);
      TouchRelation(TouchAll(g, front), last, []);
    }
  }

  // One call adds its target, its dependents and the edges between them, and nothing else.
  lemma RegisterRelation(g: seq<Entry>, k: RefKey, ds: seq<RefKey>)
    ensures Nodes(Register(g, k, ds)) == Nodes(g) + {k} + Elements(ds)
    ensures Edges(Register(g, k, ds)) == Edges(g) + Star(k, ds)
    ensures Closed(g) ==> Closed(Register(g, k, ds))
  {
    TouchRelation(g, k, ds);
    TouchAllRelation(Touch(g, k, ds), ds);
  }

  lemma CallRelationOfLast(calls: seq<Call>)
    requires calls != []
    ensures var front, last := calls[..|calls| - 1], calls[|calls| - 1];
            && CallNodes(calls) == CallNodes(front) + {last.target}
            && CallEdges(calls) == CallEdges(front) + Star(last.target, last.dependsOn)
            && Targets(CallEdges(calls)) == Targets(CallEdges(front)) + Elements(last.dependsOn)
  {
  }

  // After any sequence of calls the graph is exactly the union of what was registered.
  lemma {:induction false} RunRelation(g: seq<Entry>, calls: seq<Call>)
    ensures Edges(Run(g, calls)) == Edges(g) + CallEdges(calls)
    ensures Nodes(Run(g, calls)) == Nodes(g) + CallNodes(calls) + Targets(CallEdges(calls))
    ensures Closed(g) ==> Closed(Run(g, calls))
  {
    if calls != [] {
      var front, last := calls[..|calls| - 1], calls[|calls| - 1];
      RunRelation(g, front);
      RegisterRelation(Run(g, front), last.target, last.dependsOn);
      CallRelationOfLast(calls);
    }
  }

  // ---------- sortedness ----------

  function Refs(g: seq<Entry>): seq<RefKey> {
    seq(|g|, i requires 0 <= i < |g| => g[i].ref)
  }

  ghost predicate WellSorted(ks: seq<RefKey>) {
    Distinct(ks) && WeaklySorted(KeyLess, ks)
  }

  // One entry for each ref; entries and their targets lie in order.
  ghost predicate WellFormed(g: seq<Entry>) {
    WellSorted(Refs(g)) && forall e <- g :: WellSorted(e.targets)
  }

  predicate AllNamed(ks: seq<RefKey>) {
    forall k <- ks :: k.Named?
  }

  predicate FullyNamed(g: seq<Entry>) {
    forall e <- g :: e.ref.Named? && AllNamed(e.targets)
  }

  lemma KeyLessIsWeak(ks: set<RefKey>)
    ensures WeakOn(KeyLess, ks)
  {
    forall a <- ks, b <- ks, c <- ks
      ensures KeyLess(a, b) ==> !KeyLess(b, a)
      ensures !KeyLess(a, b) && !KeyLess(b, c) ==> !KeyLess(a, c)
    {
      KeyLessIrreflexive(a);
      KeyLessIrreflexive(b);
      if KeyLess(a, b) && KeyLess(b, a) {
        KeyLessTransitive(a, b, a);
      }
      if KeyLess(a, c) && !KeyLess(a, b) {
        KeyLessTotalUnlessAnonymous(a, b);
        if KeyLess(b, a) {
          KeyLessTransitive(b, a, c);
        } else {
          assert a.Text() == b.Text();
        }
      }
    }
  }

  // No two refs without values.
  predicate Separable(ks: set<RefKey>) {
    forall k <- ks, l <- ks :: k.Anonymous? && l.Anonymous? ==> k == l
  }

  // Refs are in a strict total order exactly when no two of them lack a value.
  lemma TotalIffSeparable(ks: set<RefKey>)
    ensures StrictTotalOn(KeyLess, ks) <==> Separable(ks)
  {
    forall a <- ks, b <- ks, c <- ks
      ensures !KeyLess(a, a) && ((a == b || KeyLess(a, b) || KeyLess(b, a)) <==> (a == b || a.Named? || b.Named?))
      ensures KeyLess(a, b) && KeyLess(b, c) ==> KeyLess(a, c)
    {
      KeyLessIrreflexive(a);
      KeyLessTotalUnlessAnonymous(a, b);
      if KeyLess(a, b) && KeyLess(b, c) {
        KeyLessTransitive(a, b, c);
      }
    }
  }

  lemma {:induction false} RefsOfInsert(g: seq<Entry>, e: Entry)
    ensures Refs(InsertRight(EntryLess, g, e)) == InsertRight(KeyLess, Refs(g), e.ref)
  {
    if g != [] {
      assert Refs(g) == [g[0].ref] + Refs(g[1..]);
      if !EntryLess(e, g[0]) {
        RefsOfInsert(g[1..], e);
      }
    }
  }

  lemma AddAllWellSorted(ks: seq<RefKey>, ds: seq<RefKey>)
    requires WellSorted(ks)
    ensures WellSorted(AddAll(KeyLess, ks, ds))
  {
    KeyLessIsWeak(Elements(ks) + Elements(ds));
    AddAllKeeps(KeyLess, ks, ds);
    AddAllWeaklySorted(KeyLess, ks, ds);
  }

  lemma ReplaceKeepsForm(g: seq<Entry>, i: nat, e: Entry)
    requires WellFormed(g) && i < |g| && e.ref == g[i].ref
    requires WellSorted(g[i].targets) ==> WellSorted(e.targets)
    ensures WellFormed(g[i := e])
  {
    assert g[i] in g;
    assert Refs(g[i := e]) == Refs(g);
  }

  lemma InsertKeepsForm(g: seq<Entry>, e: Entry)
    requires WellFormed(g) && WellSorted(e.targets) && e.ref !in Refs(g)
    ensures WellFormed(InsertRight(EntryLess, g, e))
  {
    var g' := InsertRight(EntryLess, g, e);
    assert WellSorted(Refs(g')) by {
      RefsOfInsert(g, e);
      KeyLessIsWeak(Elements(Refs(g)) + {e.ref});
      InsertRightSorted(KeyLess, Refs(g), e.ref);
      AddKeeps(KeyLess, Refs(g), e.ref);
    }
    InsertRightElements(EntryLess, g, e);
    forall x | x in g' ensures WellSorted(x.targets) {
      assert x in g || x == e;
    }
  }

  lemma TouchKeepsForm(g: seq<Entry>, k: RefKey, ds: seq<RefKey>)
    requires WellFormed(g)
    ensures WellFormed(Touch(g, k, ds))
  {
    var i := Find(g, k);
    if i < |g| {
      assert g[i] in g;
      AddAllWellSorted(g[i].targets, ds);
      ReplaceKeepsForm(g, i, Grow(g[i], ds));
    } else {
      AddAllWellSorted([], ds);
      InsertKeepsForm(g, Grow(Entry(k, []), ds));
    }
  }

  lemma {:induction false} TouchAllKeepsForm(g: seq<Entry>, ks: seq<RefKey>)
    requires WellFormed(g)
    ensures WellFormed(TouchAll(g, ks))
  {
    if ks != [] {
      TouchAllKeepsForm(g, ks[..|ks| - 1]);
      TouchKeepsForm(TouchAll(g, ks[..|ks| - 1]), ks[|ks| - 1], []);
    }
  }

  lemma RegisterKeepsForm(g: seq<Entry>, k: RefKey, ds: seq<RefKey>)
    requires WellFormed(g)
    ensures WellFormed(Register(g, k, ds))
  {
    TouchKeepsForm(g, k, ds);
    TouchAllKeepsForm(Touch(g, k, ds), ds);
  }

  // Growing an entry in place inside the sorted set never puts it out of order.
  lemma {:induction false} RunKeepsForm(g: seq<Entry>, calls: seq<Call>)
    requires WellFormed(g)
    ensures WellFormed(Run(g, calls))
  {
    if calls != [] {
      var front, last := calls[..|calls| - 1], calls[|calls| - 1];
      RunKeepsForm(g, front);
      RegisterKeepsForm(Run(g, front), last.target, last.dependsOn);
    }
  }

  // ---------- the order in terms of texts ----------

  // Refs without values come first, and the others follow on each other by their values.
  lemma KeysInTextOrder(ks: seq<RefKey>, i: nat, j: nat)
    requires WellSorted(ks) && i < j < |ks|
    ensures ks[j].Anonymous? ==> ks[i].Anonymous?
    ensures ks[i].Named? && ks[j].Named? ==> StringLess(ks[i].name, ks[j].name)
  {
    assert ks[i] != ks[j] && !KeyLess(ks[j], ks[i]);
    if ks[i].Named? && ks[j].Named? {
      StringLessTotal(ks[i].name, ks[j].name);
    }
  }

  // So over any run entries stand in the order of the values of their refs, and targets in each.
  lemma RunInTextOrder(calls: seq<Call>)
    ensures var g := Run([], calls);
            && (forall i, j :: 0 <= i < j < |g| ==>
                  (g[j].ref.Anonymous? ==> g[i].ref.Anonymous?) &&
                  (g[i].ref.Named? && g[j].ref.Named? ==> StringLess(g[i].ref.name, g[j].ref.name)))
            && forall e <- g, i, j :: 0 <= i < j < |e.targets| ==>
                 (e.targets[j].Anonymous? ==> e.targets[i].Anonymous?) &&
                 (e.targets[i].Named? && e.targets[j].Named? ==> StringLess(e.targets[i].name, e.targets[j].name))
  {
    var g := Run([], calls);
    RunKeepsForm([], calls);
    forall i, j | 0 <= i < j < |g|
      ensures g[j].ref.Anonymous? ==> g[i].ref.Anonymous?
      ensures g[i].ref.Named? && g[j].ref.Named? ==> StringLess(g[i].ref.name, g[j].ref.name)
    {
      KeysInTextOrder(Refs(g), i, j);
    }
    forall e <- g, i, j | 0 <= i < j < |e.targets|
      ensures e.targets[j].Anonymous? ==> e.targets[i].Anonymous?
      ensures e.targets[i].Named? && e.targets[j].Named? ==> StringLess(e.targets[i].name, e.targets[j].name)
    {
      KeysInTextOrder(e.targets, i, j);
    }
  }

  // ---------- canonicity ----------

  lemma TargetsAreEdges(g: seq<Entry>, e: Entry)
    requires Distinct(Refs(g)) && e in g
    ensures forall t :: t in e.targets <==> (e.ref, t) in Edges(g)
  {
    forall f | f in g && f.ref == e.ref ensures f == e {
      var i :| 0 <= i < |g| && g[i] == e;
      var j :| 0 <= j < |g| && g[j] == f;
      assert Refs(g)[i] == Refs(g)[j];
    }
  }

  // The refs of a graph: its nodes, and the ends of its edges.
  function GraphKeys(g: seq<Entry>): set<RefKey> {
    Nodes(g) + Targets(Edges(g))
  }

  // Graphs with the same nodes and edges are the same entries in the same order, unless there are
  // two refs without values.
  lemma GraphDeterminesEntries(g: seq<Entry>, h: seq<Entry>)
    requires WellFormed(g) && WellFormed(h) && Separable(GraphKeys(g))
    requires Nodes(g) == Nodes(h) && Edges(g) == Edges(h)
    ensures g == h
  {
    RefsAreNodes(g);
    RefsAreNodes(h);
    TotalIffSeparable(Nodes(g));
    WeaklySortedIsSorted(KeyLess, Refs(g));
    WeaklySortedIsSorted(KeyLess, Refs(h));
    SortedIsUnique(KeyLess, Refs(g), Refs(h));
    assert |Refs(g)| == |g| && |Refs(h)| == |h|;
    forall i | 0 <= i < |g| ensures g[i] == h[i] {
      assert Refs(g)[i] == Refs(h)[i];
      assert g[i] in g && h[i] in h;
      TargetsAreEdges(g, g[i]);
      TargetsAreEdges(h, h[i]);
      assert Elements(g[i].targets) == Elements(h[i].targets);
      forall t <- Elements(g[i].targets) ensures t in GraphKeys(g) {
        assert (g[i].ref, t) in Edges(g);
      }
      TotalIffSeparable(Elements(g[i].targets));
      WeaklySortedIsSorted(KeyLess, g[i].targets);
      WeaklySortedIsSorted(KeyLess, h[i].targets);
      SortedIsUnique(KeyLess, g[i].targets, h[i].targets);
    }
  }

  lemma RefsAreNodes(g: seq<Entry>)
    ensures Elements(Refs(g)) == Nodes(g)
  {
    forall k ensures k in Refs(g) <==> k in Nodes(g) {
      if k in Nodes(g) {
        var i :| 0 <= i < |g| && g[i].ref == k;
        assert Refs(g)[i] == k;
      }
    }
  }

  // The refs that a run makes entries for.
  function Registered(calls: seq<Call>): set<RefKey> {
    CallNodes(calls) + Targets(CallEdges(calls))
  }

  ghost predicate SameRegistered(calls: seq<Call>, others: seq<Call>) {
    CallEdges(others) == CallEdges(calls) && Registered(others) == Registered(calls)
  }

  // Two runs that register the same targets and pairs, in whatever order and however often, leave
  // the same entries in the same order, if no two of the refs lack values.
  lemma CallOrderIsIrrelevant(calls: seq<Call>, others: seq<Call>)
    requires SameRegistered(calls, others) && Separable(Registered(calls))
    ensures Run([], others) == Run([], calls)
  {
    RunRelation([], calls);
    RunRelation([], others);
    RunKeepsForm([], calls);
    RunKeepsForm([], others);
    GraphDeterminesEntries(Run([], calls), Run([], others));
  }

  // `a` stands before `b`.
  ghost predicate Before(ks: seq<RefKey>, a: RefKey, b: RefKey) {
    exists i, j :: 0 <= i < j < |ks| && ks[i] == a && ks[j] == b
  }

  lemma NotBothBefore(ks: seq<RefKey>, a: RefKey, b: RefKey)
    requires Distinct(ks) && Before(ks, a, b)
    ensures !Before(ks, b, a)
  {
  }

  lemma InsertKeepsBefore(ks: seq<RefKey>, k: RefKey, a: RefKey, b: RefKey)
    requires Before(ks, a, b)
    ensures Before(InsertRight(KeyLess, ks, k), a, b)
  {
    var i, j :| 0 <= i < j < |ks| && ks[i] == a && ks[j] == b;
    var p := InsertRightSplits(KeyLess, ks, k);
    var all := ks[..p] + [k] + ks[p..];
    assert all[if i < p then i else i + 1] == a && all[if j < p then j else j + 1] == b;
  }

  lemma TouchKeepsBefore(g: seq<Entry>, k: RefKey, ds: seq<RefKey>, a: RefKey, b: RefKey)
    requires Before(Refs(g), a, b)
    ensures Before(Refs(Touch(g, k, ds)), a, b)
  {
    var i := Find(g, k);
    if i < |g| {
      assert Refs(g[i := Grow(g[i], ds)]) == Refs(g);
    } else {
      RefsOfInsert(g, Grow(Entry(k, []), ds));
      InsertKeepsBefore(Refs(g), k, a, b);
    }
  }

  lemma {:induction false} TouchAllKeepsBefore(g: seq<Entry>, ks: seq<RefKey>, a: RefKey, b: RefKey)
    requires Before(Refs(g), a, b)
    ensures Before(Refs(TouchAll(g, ks)), a, b)
  {
    if ks != [] {
      TouchAllKeepsBefore(g, ks[..|ks| - 1], a, b);
      TouchKeepsBefore(TouchAll(g, ks[..|ks| - 1]), ks[|ks| - 1], [], a, b);
    }
  }

  lemma {:induction false} RunKeepsBefore(g: seq<Entry>, calls: seq<Call>, a: RefKey, b: RefKey)
    requires Before(Refs(g), a, b)
    ensures Before(Refs(Run(g, calls)), a, b)
  {
    if calls != [] {
      var front, last := calls[..|calls| - 1], calls[|calls| - 1];
      RunKeepsBefore(g, front, a, b);
      TouchKeepsBefore(Run(g, front), last.target, last.dependsOn, a, b);
      TouchAllKeepsBefore(Touch(Run(g, front), last.target, last.dependsOn), last.dependsOn, a, b);
    }
  }

  lemma {:induction false} RunOfConcat(g: seq<Entry>, calls: seq<Call>, more: seq<Call>)
    ensures Run(g, calls + more) == Run(Run(g, calls), more)
  {
    if more == [] {
      assert calls + more == calls;
    } else {
      var front := more[..|more| - 1];
      assert (calls + more)[..|calls + more| - 1] == calls + front;
      RunOfConcat(g, calls, front);
    }
  }

  // Registering known refs first, without dependents, registers nothing more.
  lemma RegisteredFirst(calls: seq<Call>, a: RefKey, b: RefKey)
    requires a in Registered(calls) && b in Registered(calls)
    ensures SameRegistered(calls, [Call(a, []), Call(b, [])] + calls)
  {
    var others := [Call(a, []), Call(b, [])] + calls;
    assert forall c :: c in others <==> c in calls || c == Call(a, []) || c == Call(b, []);
    assert CallEdges(others) == CallEdges(calls);
    assert CallNodes(others) == CallNodes(calls) + {a, b};
  }

  // Of two refs without values, the one that is registered first stays first.
  lemma FirstComesFirst(calls: seq<Call>, a: RefKey, b: RefKey)
    requires a.Anonymous? && b.Anonymous? && a != b
    ensures Before(Refs(Run([], [Call(a, []), Call(b, [])] + calls)), a, b)
  {
    var first := Run([], [Call(a, []), Call(b, [])]);
    RunOfTwoAnonymous(a, b);
    assert Refs(first)[0] == a && Refs(first)[1] == b;
    RunKeepsBefore(first, calls, a, b);
    RunOfConcat([], [Call(a, []), Call(b, [])], calls);
  }

  lemma RunOfTwoAnonymous(a: RefKey, b: RefKey)
    requires a.Anonymous? && b.Anonymous? && a != b
    ensures Run([], [Call(a, []), Call(b, [])]) == [Entry(a, []), Entry(b, [])]
  {
    var first, second := Call(a, []), Call(b, []);
    var calls := [first, second];
    assert calls[..1] == [first] && [first][..0] == [];
    assert Run([], [first]) == Register(Run([], []), first.target, []) == [Entry(a, [])];
    var one, e := [Entry(a, [])], Entry(b, []);
    assert Grow(e, []) == e && Find(one, e.ref) == 1 && !EntryLess(e, one[0]);
    assert InsertRight(EntryLess, one, e) == [one[0]] + InsertRight(EntryLess, one[1..], e) == [one[0], e];
  }

  // And if two refs do lack values, some run that registers the same lists them otherwise.
  lemma CallOrderShows(calls: seq<Call>, a: RefKey, b: RefKey) returns (others: seq<Call>)
    requires a in Registered(calls) && b in Registered(calls) && a.Anonymous? && b.Anonymous? && a != b
    ensures SameRegistered(calls, others) && Run([], others) != Run([], calls)
  {
    var aFirst, bFirst := [Call(a, []), Call(b, [])] + calls, [Call(b, []), Call(a, [])] + calls;
    RegisteredFirst(calls, a, b);
    RegisteredFirst(calls, b, a);
    FirstComesFirst(calls, a, b);
    FirstComesFirst(calls, b, a);
    RunKeepsForm([], aFirst);
    NotBothBefore(Refs(Run([], aFirst)), a, b);
    others := if Run([], aFirst) == Run([], calls) then bFirst else aFirst;
  }

  // So what a run registers decides its listing exactly if no two of the refs lack values.
  lemma CallOrderIsIrrelevantIff(calls: seq<Call>)
    ensures Separable(Registered(calls)) <==>
            forall others :: SameRegistered(calls, others) ==> Run([], others) == Run([], calls)
  {
    if Separable(Registered(calls)) {
      forall others | SameRegistered(calls, others) ensures Run([], others) == Run([], calls) {
        CallOrderIsIrrelevant(calls, others);
      }
    } else {
      var a, b :| a in Registered(calls) && b in Registered(calls) && a.Anonymous? && b.Anonymous? && a != b;
      var others := CallOrderShows(calls, a, b);
    }
  }

  // ---------- entries under the general order of models ----------

  function TargetValues(ks: seq<RefKey>): seq<Value> {
    seq(|ks|, i requires 0 <= i < |ks| => Object(Other("Dependency"), [Ref(ks[i]), Tuple([])]))
  }

  // The comparable tuple of an entry: its ref, then its nested dependencies.
  function EntryValue(e: Entry): Value {
    Object(Other("Dependency"), [Ref(e.ref), Tuple(TargetValues(e.targets))])
  }

  function Values(g: seq<Entry>): seq<Value> {
    seq(|g|, i requires 0 <= i < |g| => EntryValue(g[i]))
  }

  lemma EntryOrderIsRefOrder(a: Entry, b: Entry)
    requires a.ref != b.ref
    ensures Less(EntryValue(a), EntryValue(b)) == Decide(KeyLess(a.ref, b.ref))
  {
    var x, y := EntryValue(a).fields, EntryValue(b).fields;
    assert Head(x) == Ref(a.ref) && Head(y) == Ref(b.ref);
    assert LessItems(x, y) == Less(Ref(a.ref), Ref(b.ref));
  }

  lemma EntriesInOrder(g: seq<Entry>, i: nat, j: nat)
    requires WellFormed(g) && i < j < |g|
    ensures g[i].ref in Nodes(g) && g[j].ref in Nodes(g) && g[i].ref != g[j].ref
    ensures IsLess(Values(g)[i], Values(g)[j]) <==> g[i].ref.Named? || g[j].ref.Named?
  {
    assert g[i] in g && g[j] in g;
    assert Refs(g)[i] != Refs(g)[j] && !KeyLess(Refs(g)[j], Refs(g)[i]);
    EntryOrderIsRefOrder(g[i], g[j]);
    KeyLessTotalUnlessAnonymous(g[i].ref, g[j].ref);
  }

  // The entries are in strict order exactly when no two of them are anonymous.
  lemma StrictlySortedIffSeparable(g: seq<Entry>)
    requires WellFormed(g)
    ensures Sorted(IsLess, Values(g)) <==> Separable(Nodes(g))
  {
    if Separable(Nodes(g)) {
      forall i, j | 0 <= i < j < |g| ensures IsLess(Values(g)[i], Values(g)[j]) {
        EntriesInOrder(g, i, j);
      }
    }
    if Sorted(IsLess, Values(g)) {
      forall k <- Nodes(g), l <- Nodes(g) | k.Anonymous? && l.Anonymous? ensures k == l {
        var i :| 0 <= i < |g| && g[i].ref == k;
        var j :| 0 <= j < |g| && g[j].ref == l;
        if i < j {
          EntriesInOrder(g, i, j);
        } else if j < i {
          EntriesInOrder(g, j, i);
        }
      }
    }
  }

  // Over any run of registrations the growth of entries inside the sorted set leaves it in strict
  // order, as long as no two targets lack a value.
  lemma RunListsInOrder(calls: seq<Call>)
    ensures Sorted(IsLess, Values(Run([], calls))) <==> Separable(Registered(calls))
  {
    RunRelation([], calls);
    RunKeepsForm([], calls);
    StrictlySortedIffSeparable(Run([], calls));
  }

  // ---------- what registering without dependents adds ----------

  lemma {:induction false} TouchKnownIsNoop(g: seq<Entry>, k: RefKey)
    requires k in Nodes(g)
    ensures Touch(g, k, []) == g
  {
  }

  // A second pass finds every entry in place.
  lemma {:induction false} TouchAllIsIdempotent(g: seq<Entry>, ks: seq<RefKey>)
    requires Elements(ks) <= Nodes(g)
    ensures TouchAll(g, ks) == g
  {
    if ks != [] {
      assert ks[|ks| - 1] in Elements(ks);
      TouchAllIsIdempotent(g, ks[..|ks| - 1]);
      TouchKnownIsNoop(g, ks[|ks| - 1]);
    }
  }

  lemma SecondPassAddsNothing(g: seq<Entry>, ks: seq<RefKey>)
    ensures TouchAll(TouchAll(g, ks), ks) == TouchAll(g, ks)
  {
    TouchAllRelation(g, ks);
    TouchAllIsIdempotent(TouchAll(g, ks), ks);
  }

  // All old entries stay as they are, and each new one is edge-free and for a ref not seen before.
  lemma {:induction false} TouchAllOnlyAddsBareEntries(g: seq<Entry>, ks: seq<RefKey>)
    ensures multiset(g) <= multiset(TouchAll(g, ks))
    ensures forall e <- multiset(TouchAll(g, ks)) - multiset(g) ::
              e.targets == [] && e.ref in ks && e.ref !in Nodes(g)
  {
    if ks != [] {
      var front, last := ks[..|ks| - 1], ks[|ks| - 1];
      TouchAllOnlyAddsBareEntries(g, front);
      TouchAllRelation(g, front);
      var mid := TouchAll(g, front);
      if Find(mid, last) < |mid| {
        assert mid[Find(mid, last)] in mid;
        TouchKnownIsNoop(mid, last);
      } else {
        InsertRightElements(EntryLess, mid, Entry(last, []));
        assert last !in Nodes(mid);
      }
    }
  }
}
