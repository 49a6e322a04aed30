/** Sets of components: one listing, however deep the components are nested. */
module ComponentOrder {
  import opened BomRefs
  import opened Compare
  import opened Components
  import opened ModelSets
  import opened SortedSets

  /** The shapes of the fields of a component that are not given by its class alone. */
  datatype Schema = Schema(
    identification: Shape, hash: Shape, license: Shape, provenance: Shape,
    reference: Shape, properties: Shape, supplement: Shape)

  ghost predicate Optional(v: Value, shape: Shape) {
    v.Nothing? || Conforms(v, shape)
  }

  // The fields of a component, and of all below it, are of the shapes given.
  ghost predicate Fits(c: Component, schema: Schema) {
    c.kind.Str? && Optional(c.group, StrShape) && c.name.Str? && Optional(c.version, StrShape) &&
    Conforms(c.identification, schema.identification) && Conforms(c.provenance, schema.provenance) &&
    Conforms(c.properties, schema.properties) && Conforms(c.supplement, schema.supplement) &&
    AllConform(c.hashes, schema.hash) && AllConform(c.licenses, schema.license) &&
    AllConform(c.externalReferences, schema.reference) &&
    forall d <- c.components :: Fits(d, schema)
  }

  function Height(c: Component): nat
    decreases c, 1
  {
    HeightOf(c.components)
  }

  // No component listed is higher than one level less.
  function HeightOf(cs: seq<Component>): (n: nat)
    ensures forall c <- cs :: Height(c) < n
    decreases cs, 0
  {
    if cs == [] then 0
    else
      var first, rest := Height(cs[0]) + 1, HeightOf(cs[1..]);
      assert cs == [cs[0]] + cs[1..];
      if first < rest then rest else first
  }

  function ComponentShape(schema: Schema, depth: nat): Shape {
    var child := if depth == 0 then StrShape else ComponentShape(schema, depth - 1);
    ObjectShape(Other("Component"), ComponentSlots(schema, child))
  }

  function ComponentSlots(schema: Schema, child: Shape): seq<Slot> {
    [Slot(StrShape, false), Slot(StrShape, true), Slot(StrShape, false), Slot(StrShape, true), Slot(StrShape, true),
     Slot(schema.identification, false), Slot(ListShape(schema.hash), false), Slot(ListShape(schema.license), false),
     Slot(schema.provenance, false), Slot(ListShape(schema.reference), false), Slot(schema.properties, false),
     Slot(ListShape(child), false), Slot(schema.supplement, false)]
  }

  lemma ListConforms(vs: seq<Value>, shape: Shape)
    requires AllConform(vs, shape)
    ensures Conforms(Tuple(vs), ListShape(shape))
  {
    forall i | 0 <= i < |vs| ensures Conforms(vs[i], shape) {
      assert vs[i] in vs;
    }
  }

  // Components nested to a bounded depth are of one shape.
  lemma {:induction false} ComponentConforms(st: Store, c: Component, schema: Schema, depth: nat)
    requires Fits(c, schema) && Height(c) <= depth
    ensures Conforms(ComponentValue(st, c), ComponentShape(schema, depth))
    decreases depth
  {
    var child := if depth == 0 then StrShape else ComponentShape(schema, depth - 1);
    var children := ComponentValues(st, c.components);
    ChildValues(st, c.components);
    forall v <- children ensures Conforms(v, child) {
      var i :| 0 <= i < |children| && children[i] == v;
      assert c.components[i] in c.components;
      ComponentConforms(st, c.components[i], schema, depth - 1);
    }
    ListConforms(children, child);
    ListConforms(c.hashes, schema.hash);
    ListConforms(c.licenses, schema.license);
    ListConforms(c.externalReferences, schema.reference);
    FieldsFill(st, c, schema, child);
  }

  lemma FieldsFill(st: Store, c: Component, schema: Schema, child: Shape)
    requires Fits(c, schema)
    requires Conforms(Tuple(c.hashes), ListShape(schema.hash)) && Conforms(Tuple(c.licenses), ListShape(schema.license))
    requires Conforms(Tuple(c.externalReferences), ListShape(schema.reference))
    requires Conforms(Tuple(ComponentValues(st, c.components)), ListShape(child))
    ensures Fill(ComponentFields(st, c), ComponentSlots(schema, child))
  {
    assert Optional(RefValue(st, c.bomRef), StrShape);
  }

  // Any components that fit are in a strict total order, however deep they go. So a set of them has
  // one listing, and parents that hold the same children compare as equal.
  lemma ComponentsAreOrdered(st: Store, cs: seq<Component>, ds: seq<Component>, schema: Schema)
    requires forall c <- cs :: Fits(c, schema)
    requires Elements(ComponentValues(st, cs)) == Elements(ComponentValues(st, ds))
    ensures StrictTotalOn(IsLess, Elements(ComponentValues(st, cs)))
    ensures SortedSet(ComponentValues(st, cs)) == SortedSet(ComponentValues(st, ds))
  {
    var vs, depth := ComponentValues(st, cs), HeightOf(cs);
    ChildValues(st, cs);
    forall v <- vs ensures Conforms(v, ComponentShape(schema, depth)) {
      var i :| 0 <= i < |vs| && vs[i] == v;
      assert cs[i] in cs;
      ComponentConforms(st, cs[i], schema, depth);
    }
    ConformingIsTotal(vs, ComponentShape(schema, depth));
    InsertionOrderIsIrrelevant(IsLess, vs, ComponentValues(st, ds));
  }
}
