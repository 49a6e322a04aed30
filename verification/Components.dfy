/** Components and services: trees of comparable fields, each node identified by a bom-ref. */
module Components {
  import opened BomRefs
  import opened Compare
  import opened Text
  import opened ValueSets

  // The fields of a component in the order of its comparable tuple. Runs of fields that are read
  // nowhere else stand together as one tuple in their place.
  datatype Component = Component(
    kind: Value, group: Value, name: Value, version: Value,
    bomRef: BomRef,
    identification: Value,  // purl up to scope
    hashes: seq<Value>,
    licenses: seq<Value>,
    provenance: Value,      // copyright and pedigree
    externalReferences: seq<Value>,
    properties: Value,
    components: seq<Component>,
    supplement: Value)      // evidence up to tags

  datatype Service = Service(
    group: Value, name: Value, version: Value,
    bomRef: BomRef,
    description: Value,     // provider up to endpoints
    externalReferences: seq<Value>,
    licenses: seq<Value>,
    properties: Value,      // and release notes
    services: seq<Service>,
    supplement: Value)

  function RefValue(st: Store, r: BomRef): Value {
    var v := ValueIn(st, r);
    if v.Some? then Str(v.value) else Nothing
  }

  // What `==` on components compares, while the bom-refs hold the values in `st`.
  function ComponentValue(st: Store, c: Component): Value
    decreases c, 2
  {
    Object(Other("Component"), ComponentFields(st, c))
  }

  function ComponentFields(st: Store, c: Component): seq<Value>
    decreases c, 1
  {
    [c.kind, c.group, c.name, c.version, RefValue(st, c.bomRef), c.identification,
     Tuple(c.hashes), Tuple(c.licenses), c.provenance, Tuple(c.externalReferences),
     c.properties, Tuple(ComponentValues(st, c.components)), c.supplement]
  }

  function ComponentValues(st: Store, cs: seq<Component>): seq<Value>
    decreases cs, 0
  {
    if cs == [] then [] else [ComponentValue(st, cs[0])] + ComponentValues(st, cs[1..])
  }

  function ServiceValue(st: Store, s: Service): Value
    decreases s, 2
  {
    Object(Other("Service"), ServiceFields(st, s))
  }

  function ServiceFields(st: Store, s: Service): seq<Value>
    decreases s, 1
  {
    [s.group, s.name, s.version, RefValue(st, s.bomRef), s.description, Tuple(s.externalReferences),
     Tuple(s.licenses), s.properties, Tuple(ServiceValues(st, s.services)), s.supplement]
  }

  function ServiceValues(st: Store, ss: seq<Service>): seq<Value>
    decreases ss, 0
  {
    if ss == [] then [] else [ServiceValue(st, ss[0])] + ServiceValues(st, ss[1..])
  }

  lemma EqualComponentsShareFields(st: Store, a: Component, b: Component)
    requires ComponentValue(st, a) == ComponentValue(st, b)
    ensures ValueIn(st, a.bomRef) == ValueIn(st, b.bomRef) && a.licenses == b.licenses
  {
  }

  lemma {:induction false} ChildValues(st: Store, cs: seq<Component>)
    ensures |ComponentValues(st, cs)| == |cs|
    ensures forall i :: 0 <= i < |cs| ==> ComponentValues(st, cs)[i] == ComponentValue(st, cs[i])
  {
    if cs != [] {
      ChildValues(st, cs[1..]);
    }
  }

  lemma {:induction false} NestedServiceValues(st: Store, ss: seq<Service>)
    ensures |ServiceValues(st, ss)| == |ss|
    ensures forall i :: 0 <= i < |ss| ==> ServiceValues(st, ss)[i] == ServiceValue(st, ss[i])
  {
    if ss != [] {
      NestedServiceValues(st, ss[1..]);
    }
  }

  lemma SameChildren(st: Store, cs: seq<Component>, ds: seq<Component>)
    ensures ComponentValues(st, cs) == ComponentValues(st, ds) <==>
            |cs| == |ds| && forall i :: 0 <= i < |cs| ==> ComponentValue(st, cs[i]) == ComponentValue(st, ds[i])
  {
    ChildValues(st, cs);
    ChildValues(st, ds);
    var x, y := ComponentValues(st, cs), ComponentValues(st, ds);
    if x == y {
      forall i | 0 <= i < |cs| ensures ComponentValue(st, cs[i]) == ComponentValue(st, ds[i]) {
        assert x[i] == y[i];
      }
    }
  }

  lemma SameNestedServices(st: Store, ss: seq<Service>, ts: seq<Service>)
    ensures ServiceValues(st, ss) == ServiceValues(st, ts) <==>
            |ss| == |ts| && forall i :: 0 <= i < |ss| ==> ServiceValue(st, ss[i]) == ServiceValue(st, ts[i])
  {
    NestedServiceValues(st, ss);
    NestedServiceValues(st, ts);
    var x, y := ServiceValues(st, ss), ServiceValues(st, ts);
    if x == y {
      forall i | 0 <= i < |ss| ensures ServiceValue(st, ss[i]) == ServiceValue(st, ts[i]) {
        assert x[i] == y[i];
      }
    }
  }

  // Components are equal exactly if they agree in every field, of bom-refs in the value, and have
  // pairwise equal children.
  lemma ComponentsAreEqualIff(st: Store, a: Component, b: Component)
    ensures ComponentValue(st, a) == ComponentValue(st, b) <==>
            b.(bomRef := a.bomRef, components := a.components) == a &&
            ValueIn(st, a.bomRef) == ValueIn(st, b.bomRef) && |a.components| == |b.components| &&
            forall i :: 0 <= i < |a.components| ==>
              ComponentValue(st, a.components[i]) == ComponentValue(st, b.components[i])
  {
    SameChildren(st, a.components, b.components);
    RefFieldLess(st, a.bomRef, b.bomRef);
    SameComponentFields(st, a, b);
  }

  lemma SameComponentFields(st: Store, a: Component, b: Component)
    ensures ComponentFields(st, a) == ComponentFields(st, b) <==>
            b.(bomRef := a.bomRef, components := a.components) == a &&
            RefValue(st, a.bomRef) == RefValue(st, b.bomRef) &&
            ComponentValues(st, a.components) == ComponentValues(st, b.components)
  {
    var x, y := ComponentFields(st, a), ComponentFields(st, b);
    assert x == y <==>
           x[0] == y[0] && x[1] == y[1] && x[2] == y[2] && x[3] == y[3] && x[4] == y[4] && x[5] == y[5] &&
           x[6] == y[6] && x[7] == y[7] && x[8] == y[8] && x[9] == y[9] && x[10] == y[10] && x[11] == y[11] &&
           x[12] == y[12];
  }

  lemma ServicesAreEqualIff(st: Store, a: Service, b: Service)
    ensures ServiceValue(st, a) == ServiceValue(st, b) <==>
            b.(bomRef := a.bomRef, services := a.services) == a &&
            ValueIn(st, a.bomRef) == ValueIn(st, b.bomRef) && |a.services| == |b.services| &&
            forall i :: 0 <= i < |a.services| ==> ServiceValue(st, a.services[i]) == ServiceValue(st, b.services[i])
  {
    SameNestedServices(st, a.services, b.services);
    RefFieldLess(st, a.bomRef, b.bomRef);
    SameServiceFields(st, a, b);
  }

  lemma SameServiceFields(st: Store, a: Service, b: Service)
    ensures ServiceFields(st, a) == ServiceFields(st, b) <==>
            b.(bomRef := a.bomRef, services := a.services) == a &&
            RefValue(st, a.bomRef) == RefValue(st, b.bomRef) &&
            ServiceValues(st, a.services) == ServiceValues(st, b.services)
  {
    var x, y := ServiceFields(st, a), ServiceFields(st, b);
    assert x == y <==>
           x[0] == y[0] && x[1] == y[1] && x[2] == y[2] && x[3] == y[3] && x[4] == y[4] && x[5] == y[5] &&
           x[6] == y[6] && x[7] == y[7] && x[8] == y[8] && x[9] == y[9];
  }

  // How two differing fields compare, the later fields being left aside: None is greatest.
  predicate FieldLess(v: Value, w: Value) {
    v != Nothing && (w == Nothing || IsLess(v, w))
  }

  lemma FieldDecides(x: seq<Value>, y: seq<Value>, k: nat)
    requires |x| == |y| && k < |x| && x[k] != y[k] && forall i :: 0 <= i < k ==> x[i] == y[i]
    ensures LessItems(x, y) == Holds <==> FieldLess(x[k], y[k])
  {
    assert forall i: nat :: i < |x| ==> ItemAt(x, i) == x[i] && ItemAt(y, i) == y[i];
    FirstDifferenceDecides(x, y, k);
  }

  // The first four fields and the one behind them, in this order, before all others.
  lemma HeadDecides(cls: Class, x: seq<Value>, y: seq<Value>)
    requires |x| == |y| > 4
    ensures var less := IsLess(Object(cls, x), Object(cls, y));
            if x[0] != y[0] then less <==> FieldLess(x[0], y[0])
            else if x[1] != y[1] then less <==> FieldLess(x[1], y[1])
            else if x[2] != y[2] then less <==> FieldLess(x[2], y[2])
            else if x[3] != y[3] then less <==> FieldLess(x[3], y[3])
            else x[4] != y[4] ==> (less <==> FieldLess(x[4], y[4]))
  {
    if x[..5] != y[..5] {
      var k := if x[0] != y[0] then 0 else if x[1] != y[1] then 1 else if x[2] != y[2] then 2
               else if x[3] != y[3] then 3 else 4;
      FieldDecides(x, y, k);
    }
  }

  // Values of bom-refs compare as texts, a missing one being greatest.
  predicate RefLess(st: Store, r: BomRef, s: BomRef) {
    var v, w := ValueIn(st, r), ValueIn(st, s);
    v.Some? && (w.Some? ==> StringLess(v.value, w.value))
  }

  lemma RefFieldLess(st: Store, r: BomRef, s: BomRef)
    ensures FieldLess(RefValue(st, r), RefValue(st, s)) <==> RefLess(st, r, s)
    ensures RefValue(st, r) == RefValue(st, s) <==> ValueIn(st, r) == ValueIn(st, s)
  {
  }

  // Components compare by type, group, name, version and bom-ref value, in this order.
  lemma ComponentsCompareInOrder(st: Store, a: Component, b: Component)
    ensures var less := IsLess(ComponentValue(st, a), ComponentValue(st, b));
            if a.kind != b.kind then less <==> FieldLess(a.kind, b.kind)
            else if a.group != b.group then less <==> FieldLess(a.group, b.group)
            else if a.name != b.name then less <==> FieldLess(a.name, b.name)
            else if a.version != b.version then less <==> FieldLess(a.version, b.version)
            else ValueIn(st, a.bomRef) != ValueIn(st, b.bomRef) ==> (less <==> RefLess(st, a.bomRef, b.bomRef))
  {
    HeadDecides(Other("Component"), ComponentFields(st, a), ComponentFields(st, b));
    RefFieldLess(st, a.bomRef, b.bomRef);
  }

  // Services compare by group, name, version and bom-ref value.
  lemma ServicesCompareInOrder(st: Store, a: Service, b: Service)
    ensures var less := IsLess(ServiceValue(st, a), ServiceValue(st, b));
            if a.group != b.group then less <==> FieldLess(a.group, b.group)
            else if a.name != b.name then less <==> FieldLess(a.name, b.name)
            else if a.version != b.version then less <==> FieldLess(a.version, b.version)
            else ValueIn(st, a.bomRef) != ValueIn(st, b.bomRef) ==> (less <==> RefLess(st, a.bomRef, b.bomRef))
  {
    HeadDecides(Other("Service"), ServiceFields(st, a), ServiceFields(st, b));
    RefFieldLess(st, a.bomRef, b.bomRef);
  }

  // ---------- the walk over nested components ----------

  // Every component of the tree, equal ones included.
  function Preorder(c: Component): seq<Component>
    decreases c, 1
  {
    [c] + PreorderAll(c.components)
  }

  function PreorderAll(cs: seq<Component>): seq<Component> {
    if cs == [] then [] else Preorder(cs[0]) + PreorderAll(cs[1..])
  }

  lemma {:induction false} PreorderAllOneMore(cs: seq<Component>, i: nat)
    requires i < |cs|
    ensures PreorderAll(cs[..i + 1]) == PreorderAll(cs[..i]) + Preorder(cs[i])
  {
    if i > 0 {
      PreorderAllOneMore(cs[1..], i - 1);
      assert cs[..i + 1][1..] == cs[1..][..i] && cs[..i][1..] == cs[1..][..i - 1];
      assert cs[1..][i - 1] == cs[i];
    } else {
      assert cs[..1] == [cs[0]] && PreorderAll([cs[0]][1..]) == [];
      assert Preorder(cs[0]) + [] == Preorder(cs[0]);
    }
  }

  // The trees of a list hold what is listed and, with each component, its children; and each component
  // of them is listed or a child of another.
  lemma {:induction false} TreesAreClosed(cs: seq<Component>)
    ensures forall c <- cs :: c in PreorderAll(cs)
    ensures forall c <- PreorderAll(cs), d <- c.components :: d in PreorderAll(cs)
    ensures forall d <- PreorderAll(cs) :: d in cs || exists c <- PreorderAll(cs) :: d in c.components
  {
    if cs != [] {
      var c, rest := cs[0], cs[1..];
      assert cs == [c] + rest;
      TreesAreClosed(c.components);
      TreesAreClosed(rest);
      assert PreorderAll(cs) == [c] + PreorderAll(c.components) + PreorderAll(rest);
      forall d <- PreorderAll(cs) ensures d in cs || exists e <- PreorderAll(cs) :: d in e.components {
        if d in PreorderAll(c.components) && d !in c.components {
          var e :| e in PreorderAll(c.components) && d in e.components;
          assert e in PreorderAll(cs);
        } else if d in PreorderAll(rest) && d !in rest {
          var e :| e in PreorderAll(rest) && d in e.components;
          assert e in PreorderAll(cs);
        }
      }
    }
  }

  lemma {:induction false} PreorderAllConcat(cs: seq<Component>, ds: seq<Component>)
    ensures PreorderAll(cs + ds) == PreorderAll(cs) + PreorderAll(ds)
  {
    if cs == [] {
      assert cs + ds == ds;
    } else {
      assert (cs + ds)[1..] == cs[1..] + ds;
      PreorderAllConcat(cs[1..], ds);
    }
  }

  function Children(cs: seq<Component>): seq<Component> {
    if cs == [] then [] else cs[0].components + Children(cs[1..])
  }

  // And they hold them once for each place: what is listed, and the trees of all children.
  lemma {:induction false} TreesByLevel(cs: seq<Component>)
    ensures multiset(PreorderAll(cs)) == multiset(cs) + multiset(PreorderAll(Children(cs)))
  {
    if cs != [] {
      var c, rest := cs[0], cs[1..];
      TreesByLevel(rest);
      PreorderAllConcat(c.components, Children(rest));
      Regroup(c, PreorderAll(c.components), rest, PreorderAll(Children(rest)), PreorderAll(rest));
      assert cs == [c] + rest && Children(cs) == c.components + Children(rest);
    }
  }

  lemma Regroup<T>(x: T, below: seq<T>, rest: seq<T>, more: seq<T>, all: seq<T>)
    requires multiset(all) == multiset(rest) + multiset(more)
    ensures multiset([x] + below + all) == multiset([x] + rest) + multiset(below + more)
  {
  }

  // Components with the values by which sets tell them apart.
  function Valued(st: Store, cs: seq<Component>): (xs: seq<Item<Component>>)
    ensures |xs| == |cs|
    ensures forall i :: 0 <= i < |cs| ==> xs[i] == Item(cs[i], ComponentValue(st, cs[i]))
  {
    seq(|cs|, i requires 0 <= i < |cs| => Item(cs[i], ComponentValue(st, cs[i])))
  }

  lemma ValuedConcat(st: Store, cs: seq<Component>, ds: seq<Component>)
    ensures Valued(st, cs + ds) == Valued(st, cs) + Valued(st, ds)
  {
  }

  // The set of a component and all components below it.
  function NestedComponents(st: Store, c: Component): seq<Item<Component>> {
    FirstOfEach(Valued(st, Preorder(c)))
  }

  // One round of the loop over children: the set of a child joins the set found so far.
  lemma JoinChild(st: Store, own: seq<Component>, cs: seq<Component>, i: nat)
    requires i < |cs|
    ensures FirstOfEach(Valued(st, own + PreorderAll(cs[..i + 1]))) ==
            IncludeAll(FirstOfEach(Valued(st, own + PreorderAll(cs[..i]))), NestedComponents(st, cs[i]))
  {
    var before, child := own + PreorderAll(cs[..i]), Preorder(cs[i]);
    PreorderAllOneMore(cs, i);
    assert own + PreorderAll(cs[..i + 1]) == before + child;
    ValuedConcat(st, before, child);
    IncludeAllConcat([], Valued(st, before), Valued(st, child));
    IncludeAllOfSet(FirstOfEach(Valued(st, before)), Valued(st, child));
  }

  // `update` on a set
  method Update(found: seq<Item<Component>>, xs: seq<Item<Component>>) returns (all: seq<Item<Component>>)
    ensures all == IncludeAll(found, xs)
  {
    all := found;
    for i := 0 to |xs|
      invariant all == IncludeAll(found, xs[..i])
    {
      assert xs[..i + 1][..i] == xs[..i];
      all := Include(all, xs[i]);
    }
    assert xs[..|xs|] == xs;
  }

  /** `get_all_nested_components`, while the bom-refs hold the values in `st` */
  method GetAllNestedComponents(st: Store, c: Component, includeSelf: bool)
    returns (found: seq<Item<Component>>)
    ensures found == FirstOfEach(Valued(st, (if includeSelf then [c] else []) + PreorderAll(c.components)))
    ensures includeSelf ==> found == NestedComponents(st, c)
    decreases c
  {
    ghost var own := if includeSelf then [c] else [];
    found := [];
    if includeSelf {
      FirstOfOne(Item(c, ComponentValue(st, c)));
      found := Include(found, Item(c, ComponentValue(st, c)));
    }
    assert Valued(st, own) == if includeSelf then [Item(c, ComponentValue(st, c))] else [];
    assert own + PreorderAll(c.components[..0]) == own;
    for i := 0 to |c.components|
      invariant found == FirstOfEach(Valued(st, own + PreorderAll(c.components[..i])))
    {
      var nested := GetAllNestedComponents(st, c.components[i], true);
      JoinChild(st, own, c.components, i);
      found := Update(found, nested);
    }
    assert c.components[..|c.components|] == c.components;
  }
}
