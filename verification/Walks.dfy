/** The components and services of a BOM as output and validation walk them. */
module Walks {
  import opened BomRefs
  import opened Compare
  import opened Components
  import opened ValueSets

  // `_get_all_components`: the nested sets of the root and of each component, one after the other.
  function Walk(st: Store, cs: seq<Component>): seq<Item<Component>> {
    if cs == [] then [] else Walk(st, cs[..|cs| - 1]) + NestedComponents(st, cs[|cs| - 1])
  }

  function ComponentRefs(cs: seq<Component>): (refs: seq<BomRef>)
    ensures |refs| == |cs| && forall i :: 0 <= i < |cs| ==> refs[i] == cs[i].bomRef
  {
    seq(|cs|, i requires 0 <= i < |cs| => cs[i].bomRef)
  }

  function ItemRefs(xs: seq<Item<Component>>): (refs: seq<BomRef>)
    ensures |refs| == |xs| && forall i :: 0 <= i < |xs| ==> refs[i] == xs[i].element.bomRef
  {
    seq(|xs|, i requires 0 <= i < |xs| => xs[i].element.bomRef)
  }

  function ServiceRefs(ss: seq<Service>): (refs: seq<BomRef>)
    ensures |refs| == |ss| && forall i :: 0 <= i < |ss| ==> refs[i] == ss[i].bomRef
  {
    seq(|ss|, i requires 0 <= i < |ss| => ss[i].bomRef)
  }

  lemma RefOfComponent(cs: seq<Component>, c: Component)
    requires c in cs
    ensures c.bomRef in ComponentRefs(cs)
  {
  }

  lemma RefOfService(ss: seq<Service>, s: Service)
    requires s in ss
    ensures s.bomRef in ServiceRefs(ss)
  {
  }

  // Services with those nested in them, as they appear in a document.
  function ServicePreorder(ss: seq<Service>): seq<Service> {
    if ss == [] then [] else [ss[0]] + ServicePreorder(ss[0].services) + ServicePreorder(ss[1..])
  }

  // They are the services listed and, with each, those nested in it; and each is listed or nested in
  // another.
  lemma {:induction false} ServicesAreClosed(ss: seq<Service>)
    ensures forall s <- ss :: s in ServicePreorder(ss)
    ensures forall s <- ServicePreorder(ss), n <- s.services :: n in ServicePreorder(ss)
    ensures forall n <- ServicePreorder(ss) :: n in ss || exists s <- ServicePreorder(ss) :: n in s.services
  {
    if ss != [] {
      var s, rest := ss[0], ss[1..];
      assert ss == [s] + rest;
      ServicesAreClosed(s.services);
      ServicesAreClosed(rest);
      forall n <- ServicePreorder(ss) ensures n in ss || exists o <- ServicePreorder(ss) :: n in o.services {
        if n in ServicePreorder(s.services) && n !in s.services {
          var o :| o in ServicePreorder(s.services) && n in o.services;
          assert o in ServicePreorder(ss);
        } else if n in ServicePreorder(rest) && n !in rest {
          var o :| o in ServicePreorder(rest) && n in o.services;
          assert o in ServicePreorder(ss);
        }
      }
    }
  }

  lemma {:induction false} ServicesConcat(ss: seq<Service>, ts: seq<Service>)
    ensures ServicePreorder(ss + ts) == ServicePreorder(ss) + ServicePreorder(ts)
  {
    if ss == [] {
      assert ss + ts == ts;
    } else {
      assert (ss + ts)[1..] == ss[1..] + ts;
      ServicesConcat(ss[1..], ts);
    }
  }

  function NestedServices(ss: seq<Service>): seq<Service> {
    if ss == [] then [] else ss[0].services + NestedServices(ss[1..])
  }

  // Once for each place: what is listed, and all that is nested in it.
  lemma {:induction false} ServicesByLevel(ss: seq<Service>)
    ensures multiset(ServicePreorder(ss)) == multiset(ss) + multiset(ServicePreorder(NestedServices(ss)))
  {
    if ss != [] {
      var s, rest := ss[0], ss[1..];
      ServicesByLevel(rest);
      ServicesConcat(s.services, NestedServices(rest));
      Regroup(s, ServicePreorder(s.services), rest, ServicePreorder(NestedServices(rest)), ServicePreorder(rest));
      assert ss == [s] + rest && NestedServices(ss) == s.services + NestedServices(rest);
    }
  }

  // What a set of nested components leaves out is equal to something it holds.
  lemma NestedCovers(st: Store, c: Component)
    ensures forall x <- NestedComponents(st, c) ::
              x.element in Preorder(c) && x.value == ComponentValue(st, x.element)
    ensures forall d <- Preorder(c) :: exists x <- NestedComponents(st, c) :: x.value == ComponentValue(st, d)
    ensures exists x <- NestedComponents(st, c) :: x.element == c
  {
    var cs, xs := Preorder(c), Valued(st, Preorder(c));
    FirstOfEachIsASet(xs);
    FirstIsKept(xs, 0);
    assert xs[0].element == c;
    forall x <- FirstOfEach(xs) ensures x.element in cs && x.value == ComponentValue(st, x.element) {
      var i :| 0 <= i < |FirstOfEach(xs)| && FirstOfEach(xs)[i] == x;
      var j :| 0 <= j < |xs| && xs[j] == x;
      assert cs[j] in cs;
    }
    forall d <- cs ensures exists x <- FirstOfEach(xs) :: x.value == ComponentValue(st, d) {
      var j :| 0 <= j < |cs| && cs[j] == d;
      assert Contains(FirstOfEach(xs), xs[j].value);
      var k :| 0 <= k < |FirstOfEach(xs)| && FirstOfEach(xs)[k].value == xs[j].value;
      assert FirstOfEach(xs)[k] in FirstOfEach(xs);
    }
  }

  lemma WalkOneMore(st: Store, cs: seq<Component>)
    requires cs != []
    ensures Walk(st, cs) == Walk(st, cs[..|cs| - 1]) + NestedComponents(st, cs[|cs| - 1])
    ensures PreorderAll(cs) == PreorderAll(cs[..|cs| - 1]) + Preorder(cs[|cs| - 1])
  {
    PreorderAllOneMore(cs, |cs| - 1);
    assert cs[..|cs| - 1 + 1] == cs;
  }

  lemma {:induction false} WalkIsFaithful(st: Store, cs: seq<Component>, x: Item<Component>)
    requires x in Walk(st, cs)
    ensures x.element in PreorderAll(cs) && x.value == ComponentValue(st, x.element)
  {
    WalkOneMore(st, cs);
    if x in Walk(st, cs[..|cs| - 1]) {
      WalkIsFaithful(st, cs[..|cs| - 1], x);
    } else {
      NestedCovers(st, cs[|cs| - 1]);
    }
  }

  // The walk reaches an equal of every component.
  lemma {:induction false} WalkCovers(st: Store, cs: seq<Component>, d: Component) returns (x: Item<Component>)
    requires d in PreorderAll(cs)
    ensures x in Walk(st, cs) && x.value == ComponentValue(st, d) == ComponentValue(st, x.element)
  {
    WalkOneMore(st, cs);
    if d in PreorderAll(cs[..|cs| - 1]) {
      x := WalkCovers(st, cs[..|cs| - 1], d);
    } else {
      NestedCovers(st, cs[|cs| - 1]);
      x :| x in NestedComponents(st, cs[|cs| - 1]) && x.value == ComponentValue(st, d);
    }
  }

  // The walk reaches every listed component in person.
  lemma {:induction false} WalkKeepsRoots(st: Store, cs: seq<Component>, c: Component) returns (x: Item<Component>)
    requires c in cs
    ensures x in Walk(st, cs) && x.element == c
  {
    WalkOneMore(st, cs);
    if c in cs[..|cs| - 1] {
      x := WalkKeepsRoots(st, cs[..|cs| - 1], c);
    } else {
      NestedCovers(st, cs[|cs| - 1]);
      x :| x in NestedComponents(st, cs[|cs| - 1]) && x.element == c;
    }
  }

  // Below each listed component the walk lists equal components once.
  lemma WalkOfOneMore(st: Store, cs: seq<Component>, c: Component) returns (found: seq<Item<Component>>)
    ensures Walk(st, cs + [c]) == Walk(st, cs) + found
    ensures forall x <- found :: x.element in Preorder(c) && x.value == ComponentValue(st, x.element)
    ensures forall i, j :: 0 <= i < j < |found| ==> found[i].value != found[j].value
  {
    found := NestedComponents(st, c);
    assert (cs + [c])[..|cs + [c]| - 1] == cs;
    NestedCovers(st, c);
    FirstOfEachIsASet(Valued(st, Preorder(c)));
  }

  // More than one license, one of them an expression.
  predicate Mixed(licenses: seq<Value>) {
    |licenses| > 1 && exists l <- licenses :: l.Object? && l.cls == LicenseExpression
  }

  // Checking the components walked checks all: equal components have equal licenses.
  lemma WalkSeesAllLicenses(st: Store, cs: seq<Component>)
    ensures (exists x <- Walk(st, cs) :: Mixed(x.element.licenses)) <==>
            (exists c <- PreorderAll(cs) :: Mixed(c.licenses))
  {
    if c :| c in PreorderAll(cs) && Mixed(c.licenses) {
      var x := WalkCovers(st, cs, c);
      EqualComponentsShareFields(st, x.element, c);
    }
    if x :| x in Walk(st, cs) && Mixed(x.element.licenses) {
      WalkIsFaithful(st, cs, x);
    }
  }

  // The walk over all components, set by set.
  method WalkAll(st: Store, cs: seq<Component>) returns (found: seq<Item<Component>>)
    ensures found == Walk(st, cs)
  {
    found := [];
    for i := 0 to |cs|
      invariant found == Walk(st, cs[..i])
    {
      var nested := GetAllNestedComponents(st, cs[i], true);
      assert cs[..i + 1][..i] == cs[..i];
      found := found + nested;
    }
    assert cs[..|cs|] == cs;
  }

  // ---------- what a BOM lists ----------

  /** The lists of a BOM that output and validation read, and never change. */
  datatype Contents = Contents(
    metadataComponent: Option<Component>,
    metadataLicenses: seq<Value>,
    components: seq<Component>,
    services: seq<Service>,
    vulnerabilities: seq<BomRef>)
  {
    // The root component, if any, and the top-level components.
    function Roots(): seq<Component> {
      (if metadataComponent.Some? then [metadataComponent.value] else []) + components
    }

    // What validation gives an entry of its own.
    function Dependables(): seq<BomRef> {
      ComponentRefs(Roots()) + ServiceRefs(services)
    }

    // What validation accepts as the meaning of a graph ref.
    function Reached(st: Store): seq<BomRef> {
      ItemRefs(Walk(st, Roots())) + ServiceRefs(services)
    }

    function KnownKeys(st: Store): set<RefKey> {
      set r <- Reached(st) :: KeyIn(st, r)
    }

    // What the discriminator is built from.
    function Walked(st: Store): seq<BomRef> {
      Reached(st) + vulnerabilities
    }

    // Every component, service and vulnerability that is written.
    function DocumentRefs(): seq<BomRef> {
      ComponentRefs(PreorderAll(Roots())) + ServiceRefs(ServicePreorder(services)) + vulnerabilities
    }

    function DocumentSet(): set<BomRef> {
      set r <- DocumentRefs()
    }

    // Some part of the BOM mixes an expression with other licenses.
    predicate AnyMixed() {
      Mixed(metadataLicenses) ||
      (exists c <- PreorderAll(Roots()) :: Mixed(c.licenses)) ||
      (exists s <- services :: Mixed(s.licenses))
    }

    // The same as validation sees it: of equal components it looks at one.
    predicate AnyMixedSeen(st: Store) {
      Mixed(metadataLicenses) ||
      (exists x <- Walk(st, Roots()) :: Mixed(x.element.licenses)) ||
      (exists s <- services :: Mixed(s.licenses))
    }

    // Looking at one of equal components hides no license, since licenses are part of equality.
    lemma NoMixIsHidden(st: Store)
      ensures AnyMixedSeen(st) <==> AnyMixed()
    {
      WalkSeesAllLicenses(st, Roots());
    }

    lemma ServicesAreWritten(r: BomRef)
      requires r in ServiceRefs(services)
      ensures r in ServiceRefs(ServicePreorder(services))
    {
      var i :| 0 <= i < |services| && services[i].bomRef == r;
      ServicesAreClosed(services);
      RefOfService(ServicePreorder(services), services[i]);
    }

    lemma DependablesAreReached(st: Store, r: BomRef)
      requires r in Dependables()
      ensures r in Reached(st)
    {
      if r in ComponentRefs(Roots()) {
        var i :| 0 <= i < |Roots()| && Roots()[i].bomRef == r;
        var x := WalkKeepsRoots(st, Roots(), Roots()[i]);
        var j :| 0 <= j < |Walk(st, Roots())| && Walk(st, Roots())[j] == x;
        assert ItemRefs(Walk(st, Roots()))[j] == r;
      }
    }

    // What is walked is written.
    lemma WalkedIsWritten(st: Store, r: BomRef)
      requires r in Walked(st)
      ensures r in DocumentRefs()
    {
      var walk := Walk(st, Roots());
      if r in ItemRefs(walk) {
        var i :| 0 <= i < |walk| && walk[i].element.bomRef == r;
        WalkIsFaithful(st, Roots(), walk[i]);
        RefOfComponent(PreorderAll(Roots()), walk[i].element);
      } else if r in ServiceRefs(services) {
        ServicesAreWritten(r);
      }
    }

    lemma WalksAreWritten(st: Store, refs: seq<BomRef>)
      requires multiset(refs) == multiset(Walked(st))
      ensures forall r <- refs :: r in DocumentSet()
    {
      forall r <- refs ensures r in DocumentRefs() {
        assert r in multiset(refs);
        WalkedIsWritten(st, r);
      }
    }

    // The root component, if any, a component listed, or one below these at any depth.
    ghost predicate HasComponent(c: Component) {
      c in PreorderAll(components) || (metadataComponent.Some? && c in Preorder(metadataComponent.value))
    }

    lemma ComponentsAre(c: Component)
      ensures c in PreorderAll(Roots()) <==> HasComponent(c)
    {
      if metadataComponent.Some? {
        assert Roots()[0] == metadataComponent.value && Roots()[1..] == components;
      } else {
        assert Roots() == components;
      }
    }

    // What validation registers: the root, each component listed and each service listed, in this order.
    lemma DependablesAre()
      ensures var n := if metadataComponent.Some? then 1 else 0;
              |Dependables()| == n + |components| + |services| &&
              (n == 1 ==> Dependables()[0] == metadataComponent.value.bomRef) &&
              (forall i :: 0 <= i < |components| ==> Dependables()[n + i] == components[i].bomRef) &&
              forall i :: 0 <= i < |services| ==> Dependables()[n + |components| + i] == services[i].bomRef
    {
    }

    // Every component is walked, itself or an equal, and the top-level ones are walked themselves, as
    // are services and vulnerabilities; nothing else is.
    lemma WalkedHas(st: Store)
      ensures |Walked(st)| == |Walk(st, Roots())| + |services| + |vulnerabilities|
      ensures forall c | HasComponent(c) :: exists r <- Walked(st) :: ValueIn(st, r) == ValueIn(st, c.bomRef)
      ensures metadataComponent.Some? ==> metadataComponent.value.bomRef in Walked(st)
      ensures forall c <- components :: c.bomRef in Walked(st)
      ensures forall s <- services :: s.bomRef in Walked(st)
      ensures forall r <- vulnerabilities :: r in Walked(st)
    {
      RootsAreReached(st);
      forall c | HasComponent(c) ensures exists r <- Walked(st) :: ValueIn(st, r) == ValueIn(st, c.bomRef) {
        var r := EqualIsReached(st, c);
      }
      forall s <- services ensures s.bomRef in Reached(st) {
        RefOfService(services, s);
      }
    }

    lemma RootsAreReached(st: Store)
      ensures metadataComponent.Some? ==> metadataComponent.value.bomRef in Reached(st)
      ensures forall c <- components :: c.bomRef in Reached(st)
    {
      forall c <- Roots() ensures c.bomRef in Reached(st) {
        RefOfComponent(Roots(), c);
        DependablesAreReached(st, c.bomRef);
      }
      assert metadataComponent.Some? ==> Roots()[0] == metadataComponent.value;
    }

    lemma EqualIsReached(st: Store, c: Component) returns (r: BomRef)
      requires HasComponent(c)
      ensures r in Reached(st) && ValueIn(st, r) == ValueIn(st, c.bomRef)
    {
      ComponentsAre(c);
      var walk := Walk(st, Roots());
      var x := WalkCovers(st, Roots(), c);
      EqualComponentsShareFields(st, x.element, c);
      var i :| 0 <= i < |walk| && walk[i] == x;
      r := x.element.bomRef;
      assert ItemRefs(walk)[i] == r;
    }

    // What is known is what some component at any depth or some listed service is called, or such an
    // object itself.
    lemma KnownKeysAre(st: Store, k: RefKey)
      ensures k.Named? ==>
                (k in KnownKeys(st) <==>
                 (exists c | HasComponent(c) :: ValueIn(st, c.bomRef) == Some(k.name)) ||
                 (exists s <- services :: ValueIn(st, s.bomRef) == Some(k.name)))
      ensures k.Anonymous? && k in KnownKeys(st) ==>
                (exists c | HasComponent(c) :: c.bomRef == k.ref) || (exists s <- services :: s.bomRef == k.ref)
    {
      if k in KnownKeys(st) {
        var r :| r in Reached(st) && KeyIn(st, r) == k;
        ReachedIs(st, r);
      }
      if c :| HasComponent(c) && k.Named? && ValueIn(st, c.bomRef) == Some(k.name) {
        var r := EqualIsReached(st, c);
        assert KeyIn(st, r) == k;
      }
      if s :| s in services && k.Named? && ValueIn(st, s.bomRef) == Some(k.name) {
        RefOfService(services, s);
        assert KeyIn(st, s.bomRef) == k;
      }
    }

    lemma ReachedIs(st: Store, r: BomRef)
      requires r in Reached(st)
      ensures (exists c | HasComponent(c) :: c.bomRef == r) || (exists s <- services :: s.bomRef == r)
    {
      var walk := Walk(st, Roots());
      if r in ItemRefs(walk) {
        var i :| 0 <= i < |walk| && walk[i].element.bomRef == r;
        WalkIsFaithful(st, Roots(), walk[i]);
        ComponentsAre(walk[i].element);
      } else {
        var i :| 0 <= i < |services| && services[i].bomRef == r;
        assert services[i] in services;
      }
    }

    // What is written: every component and every service at any depth, and the vulnerabilities, each once
    // for each place.
    lemma DocumentRefsAre(r: BomRef)
      ensures |DocumentRefs()| == |PreorderAll(Roots())| + |ServicePreorder(services)| + |vulnerabilities|
      ensures r in DocumentRefs() <==>
              (exists c | HasComponent(c) :: c.bomRef == r) ||
              (exists s <- ServicePreorder(services) :: s.bomRef == r) || r in vulnerabilities
    {
      var cs, ss := PreorderAll(Roots()), ServicePreorder(services);
      if r in ComponentRefs(cs) {
        var i :| 0 <= i < |cs| && cs[i].bomRef == r;
        ComponentsAre(cs[i]);
      }
      if r in ServiceRefs(ss) {
        var i :| 0 <= i < |ss| && ss[i].bomRef == r;
        assert ss[i] in ss;
      }
      if c :| HasComponent(c) && c.bomRef == r {
        ComponentsAre(c);
        RefOfComponent(cs, c);
      }
      if s :| s in ss && s.bomRef == r {
        RefOfService(ss, s);
      }
    }
  }
}
