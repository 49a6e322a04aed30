/** Tool repositories: legacy tools beside components and services, and how JSON spells them. */
module Tools {
  import opened BomRefs
  import opened Compare
  import opened Components
  import opened ModelSets
  import opened SortedSets

  // The comparable tuple of a tool.
  function ToolValue(vendor: Value, name: Value, version: Value, hashes: seq<Value>, references: seq<Value>): Value {
    Object(Other("Tool"), [vendor, name, version, Tuple(hashes), Tuple(references)])
  }

  /** `Tool.from_component` */
  function FromComponent(c: Component): Value {
    ToolValue(c.group, c.name, c.version, c.hashes, c.externalReferences)
  }

  /** `Tool.from_service` */
  function FromService(s: Service): Value {
    ToolValue(s.group, s.name, s.version, [], s.externalReferences)
  }

  // A component or service of a repository: what it compares by, and the tool it maps to.
  datatype Part = Part(value: Value, tool: Value)

  function ComponentPart(st: Store, c: Component): Part {
    Part(ComponentValue(st, c), FromComponent(c))
  }

  function ServicePart(st: Store, s: Service): Part {
    Part(ServiceValue(st, s), FromService(s))
  }

  // Equal components, and equal services, map to equal tools.
  lemma EqualPartsAreOne(st: Store, c: Component, d: Component, s: Service, t: Service)
    ensures ComponentPart(st, c).value == ComponentPart(st, d).value ==> ComponentPart(st, c) == ComponentPart(st, d)
    ensures ServicePart(st, s).value == ServicePart(st, t).value ==> ServicePart(st, s) == ServicePart(st, t)
  {
    var x, y := ComponentFields(st, c), ComponentFields(st, d);
    if ComponentPart(st, c).value == ComponentPart(st, d).value {
      assert x[1] == y[1] && x[2] == y[2] && x[3] == y[3] && x[6] == y[6] && x[9] == y[9];
    }
    var v, w := ServiceFields(st, s), ServiceFields(st, t);
    if ServicePart(st, s).value == ServicePart(st, t).value {
      assert v[0] == w[0] && v[1] == w[1] && v[2] == w[2] && v[5] == w[5];
    }
  }

  predicate PartLess(p: Part, q: Part) {
    IsLess(p.value, q.value)
  }

  // The listings of three sorted sets.
  datatype ToolRepository = ToolRepository(tools: seq<Value>, components: seq<Part>, services: seq<Part>)

  const EMPTY := ToolRepository([], [], [])

  ghost predicate IsListed(o: ToolRepository) {
    Sorted(IsLess, o.tools) && Sorted(PartLess, o.components) && Sorted(PartLess, o.services)
  }

  function ToolsOf(parts: seq<Part>): (tools: seq<Value>)
    ensures |tools| == |parts| && forall i :: 0 <= i < |parts| ==> tools[i] == parts[i].tool
  {
    seq(|parts|, i requires 0 <= i < |parts| => parts[i].tool)
  }

  // Everything as legacy tools.
  function AllAsTools(o: ToolRepository): seq<Value> {
    SortedSet(o.tools + ToolsOf(o.components) + ToolsOf(o.services))
  }

  datatype JsonTools = ToolList(tools: seq<Value>) | Parts(components: seq<Part>, services: seq<Part>)

  /** `json_normalize`; `modern` says whether the version knows tools as components and services. */
  function Normalize(o: ToolRepository, modern: bool): Option<JsonTools> {
    if |o.tools| > 0 || !modern then
      var ts := AllAsTools(o);
      if ts == [] then None else Some(ToolList(ts))
    else if o.components == [] && o.services == [] then None
    else Some(Parts(o.components, o.services))
  }

  /** `json_denormalize`; where nothing was written the repository is the empty one. */
  function Denormalize(json: Option<JsonTools>): ToolRepository {
    match json
    case None => EMPTY
    case Some(ToolList(ts)) => ToolRepository(SortedSet(ts), [], [])
    case Some(Parts(cs, ss)) => ToolRepository([], FromSeq(PartLess, cs), FromSeq(PartLess, ss))
  }

  // ---------- lowering ----------

  // Tools whose hashes and references are of one shape each.
  function ToolShape(hash: Shape, reference: Shape): Shape {
    ObjectShape(Other("Tool"), [
                  Slot(StrShape, true), Slot(StrShape, true), Slot(StrShape, true),
                  Slot(ListShape(hash), false), Slot(ListShape(reference), false)])
  }

  ghost predicate PartConforms(p: Part, hash: Shape, reference: Shape) {
    Conforms(p.tool, ToolShape(hash, reference))
  }

  ghost predicate RepositoryConforms(o: ToolRepository, hash: Shape, reference: Shape) {
    AllConform(o.tools, ToolShape(hash, reference)) &&
    (forall p <- o.components :: PartConforms(p, hash, reference)) &&
    forall p <- o.services :: PartConforms(p, hash, reference)
  }

  // Lowering lists the union of the tools and of what components and services map to, sorted and
  // each once.
  lemma LoweredIsTheUnion(o: ToolRepository, hash: Shape, reference: Shape)
    requires RepositoryConforms(o, hash, reference)
    ensures Sorted(IsLess, AllAsTools(o))
    ensures forall t :: t in AllAsTools(o) <==>
                        t in o.tools || (exists p <- o.components :: p.tool == t) ||
                        (exists p <- o.services :: p.tool == t)
  {
    var cs, ss := ToolsOf(o.components), ToolsOf(o.services);
    var all := o.tools + cs + ss;
    forall t ensures t in cs <==> exists p <- o.components :: p.tool == t {
      InToolsOf(o.components, t);
    }
    forall t ensures t in ss <==> exists p <- o.services :: p.tool == t {
      InToolsOf(o.services, t);
    }
    forall t <- all ensures Conforms(t, ToolShape(hash, reference)) {
      assert t in o.tools || t in cs || t in ss;
    }
    ConformingIsTotal(all, ToolShape(hash, reference));
    FromSeqSorted(IsLess, all);
    assert forall t :: t in AllAsTools(o) <==> t in Elements(AllAsTools(o));
    assert forall t :: t in Elements(all) <==> t in o.tools || t in cs || t in ss;
  }

  lemma InToolsOf(parts: seq<Part>, t: Value)
    ensures t in ToolsOf(parts) <==> exists p <- parts :: p.tool == t
  {
  }

  // A tool and a component are lowered to that one tool exactly if the tool's vendor, name, version,
  // hashes and references are the component's group, name, version, hashes and external references.
  lemma ComponentIsToolIff(st: Store, c: Component, vendor: Value, name: Value, version: Value,
                           hashes: seq<Value>, references: seq<Value>)
    ensures var t := Object(Other("Tool"), [vendor, name, version, Tuple(hashes), Tuple(references)]);
            AllAsTools(ToolRepository([t], [ComponentPart(st, c)], [])) == [t] <==>
            vendor == c.group && name == c.name && version == c.version &&
            hashes == c.hashes && references == c.externalReferences
  {
    var t := ToolValue(vendor, name, version, hashes, references);
    assert [t] + ToolsOf([ComponentPart(st, c)]) + ToolsOf([]) == [t, FromComponent(c)];
    LoweredPair(t, FromComponent(c));
    SameTool(vendor, name, version, hashes, references, c.group, c.name, c.version, c.hashes, c.externalReferences);
  }

  // The same of a service, which has no hashes.
  lemma ServiceIsToolIff(st: Store, s: Service, vendor: Value, name: Value, version: Value,
                         hashes: seq<Value>, references: seq<Value>)
    ensures var t := Object(Other("Tool"), [vendor, name, version, Tuple(hashes), Tuple(references)]);
            AllAsTools(ToolRepository([t], [], [ServicePart(st, s)])) == [t] <==>
            vendor == s.group && name == s.name && version == s.version &&
            hashes == [] && references == s.externalReferences
  {
    var t := ToolValue(vendor, name, version, hashes, references);
    assert [t] + ToolsOf([]) + ToolsOf([ServicePart(st, s)]) == [t, FromService(s)];
    LoweredPair(t, FromService(s));
    SameTool(vendor, name, version, hashes, references, s.group, s.name, s.version, [], s.externalReferences);
  }

  lemma LoweredPair(t: Value, u: Value)
    ensures SortedSet([t, u]) == [t] <==> t == u
  {
    AddAllKeeps(IsLess, [], [t, u]);
    ListedAgain([t]);
    assert u in [t, u] && t in [t, u];
    assert t == u ==> [t, u][..1] == [t];
  }

  lemma SameTool(v: Value, n: Value, w: Value, h: seq<Value>, r: seq<Value>,
                 v': Value, n': Value, w': Value, h': seq<Value>, r': seq<Value>)
    ensures ToolValue(v, n, w, h, r) == ToolValue(v', n', w', h', r') <==>
            v == v' && n == n' && w == w' && h == h' && r == r'
  {
    var x, y := [v, n, w, Tuple(h), Tuple(r)], [v', n', w', Tuple(h'), Tuple(r')];
    assert x == y <==> x[0] == y[0] && x[1] == y[1] && x[2] == y[2] && x[3] == y[3] && x[4] == y[4];
  }

  // ---------- normalising and back ----------

  // Only the empty repository writes nothing; others write a list of tools exactly if they hold tools or
  // nothing else is known, and else their components and services as they are.
  lemma NormalizedForm(o: ToolRepository, modern: bool)
    ensures Normalize(o, modern).None? <==> o.tools == [] && o.components == [] && o.services == []
    ensures Normalize(o, modern).Some? ==>
              match Normalize(o, modern).value
              case ToolList(ts) => (o.tools != [] || !modern) && ts == AllAsTools(o)
              case Parts(cs, ss) => o.tools == [] && modern && cs == o.components && ss == o.services
  {
    AllAreTools(o);
    if o.tools != [] {
      assert o.tools[0] in AllAsTools(o);
    } else if o.components != [] {
      assert ToolsOf(o.components)[0] in AllAsTools(o);
    } else if o.services != [] {
      assert ToolsOf(o.services)[0] in AllAsTools(o);
    } else {
      assert [] + ToolsOf([]) + ToolsOf([]) == [];
    }
  }

  // Whatever a repository holds, each tool is listed once.
  lemma AllAreTools(o: ToolRepository)
    ensures Distinct(AllAsTools(o))
    ensures forall t :: t in AllAsTools(o) <==> t in o.tools || t in ToolsOf(o.components) || t in ToolsOf(o.services)
  {
    AddAllKeeps(IsLess, [], o.tools + ToolsOf(o.components) + ToolsOf(o.services));
  }

  lemma PartsListedAgain(parts: seq<Part>)
    requires Sorted(PartLess, parts)
    ensures FromSeq(PartLess, parts) == parts
  {
    forall p <- parts, q <- parts | PartLess(p, q) ensures !PartLess(q, p) {
      LessAsymmetric(p.value, q.value);
    }
    SortedIsStrictTotal(PartLess, parts);
    SortedIsFixed(PartLess, parts);
  }

  lemma ToolsOnly(ts: seq<Value>)
    requires Sorted(IsLess, ts)
    ensures AllAsTools(ToolRepository(ts, [], [])) == ts
  {
    assert ts + ToolsOf([]) + ToolsOf([]) == ts;
    ListedAgain(ts);
  }

  // A list of tools, once written, is written the same at every version from then on.
  lemma LoweredIsStable(o: ToolRepository, modern: bool, later: bool, hash: Shape, reference: Shape)
    requires RepositoryConforms(o, hash, reference)
    requires |o.tools| > 0 || !modern
    ensures Normalize(Denormalize(Normalize(o, modern)), later) == Normalize(o, modern)
  {
    var ts := AllAsTools(o);
    LoweredIsTheUnion(o, hash, reference);
    ListedAgain(ts);
    ToolsOnly(ts);
  }

  // A repository survives writing and reading exactly when it need not be lowered, or holds
  // nothing but tools.
  lemma ToolsRoundTripIff(o: ToolRepository, modern: bool)
    requires IsListed(o)
    ensures Denormalize(Normalize(o, modern)) == o <==>
            (modern && o.tools == []) || (o.components == [] && o.services == [])
  {
    PartsListedAgain(o.components);
    PartsListedAgain(o.services);
    if o.components == [] && o.services == [] {
      ToolsOnly(o.tools);
      assert o == ToolRepository(o.tools, [], []);
      ListedAgain(o.tools);
    }
  }
}
