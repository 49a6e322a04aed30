/** What the written document is worth: its refs are told apart, and its graph can be read back. */
module Documents {
  import opened BomRefs
  import opened Boms
  import Components
  import opened Compare
  import opened Dependencies
  import opened Discrimination
  import opened Discriminator
  import opened Graph
  import opened GraphRecords
  import opened JsonOutput
  import opened Resolution
  import ValueSets
  import opened Walks

  // A validated BOM, the refs its discriminator walked, and names good for them.
  ghost predicate Writable(contents: Contents, st: Store, es: seq<RefEntry>, walked: seq<BomRef>, draw: nat -> Name) {
    Checked(contents, st, KeyedIn(st, es)).Valid? &&
    multiset(walked) == multiset(contents.Walked(st)) &&
    GoodSupply(st, walked, draw)
  }

  lemma EdgesOfKeyed(st: Store, es: seq<RefEntry>, k: RefKey, l: RefKey)
    ensures (k, l) in Edges(KeyedIn(st, es)) <==>
            exists i, j :: 0 <= i < |es| && 0 <= j < |es[i].targets| &&
                           KeyIn(st, es[i].ref) == k && KeyIn(st, es[i].targets[j]) == l
  {
  }

  lemma NodesOfKeyed(st: Store, es: seq<RefEntry>, k: RefKey)
    ensures k in Nodes(KeyedIn(st, es)) <==> exists i :: 0 <= i < |es| && KeyIn(st, es[i].ref) == k
  {
  }

  lemma GraphRefHasKey(st: Store, es: seq<RefEntry>, r: BomRef)
    requires r in RefsIn(es)
    ensures KeyIn(st, r) in GraphKeys(KeyedIn(st, es))
  {
    if e :| e in es && e.ref == r {
      var i :| 0 <= i < |es| && es[i] == e;
      NodesOfKeyed(st, es, KeyIn(st, es[i].ref));
    } else {
      var e :| e in es && r in e.targets;
      var i :| 0 <= i < |es| && es[i] == e;
      var j :| 0 <= j < |e.targets| && e.targets[j] == r;
      EdgesOfKeyed(st, es, KeyIn(st, es[i].ref), KeyIn(st, es[i].targets[j]));
      assert (KeyIn(st, e.ref), KeyIn(st, r)) in Edges(KeyedIn(st, es));
    }
  }

  // Validation makes every graph ref mean a ref that is walked.
  lemma GraphRefsResolve(contents: Contents, st: Store, es: seq<RefEntry>, walked: seq<BomRef>,
                         draw: nat -> Name, r: BomRef)
    requires Writable(contents, st, es, walked, draw) && r in RefsIn(es)
    ensures Resolves(st, walked, r)
  {
    GraphRefHasKey(st, es, r);
    assert KeyIn(st, r) in contents.KnownKeys(st);
    var w :| w in contents.Reached(st) && KeyIn(st, w) == KeyIn(st, r);
    assert w in multiset(contents.Walked(st));
    assert w in multiset(walked);
  }

  // `r` has the value of one listed ref, and of no second one.
  ghost predicate MeansOne(st: Store, refs: seq<BomRef>, r: BomRef) {
    exists w <- refs ::
      ValueIn(st, w) == ValueIn(st, r) && forall v <- refs :: ValueIn(st, v) == ValueIn(st, r) ==> v == w
  }

  // While the document is written every walked ref has a value of its own, and every ref of the
  // dependency graph has the value of exactly one walked ref.
  lemma GraphRefsMeanOneRef(contents: Contents, st: Store, es: seq<RefEntry>, walked: seq<BomRef>, draw: nat -> Name)
    requires Writable(contents, st, es, walked, draw) && NoRepeats(walked)
    ensures var after := Discriminated(st, walked, draw, 0).store;
            && (forall w <- walked :: ValueIn(after, w).Some?)
            && ToldApart(after, walked)
            && (forall r <- RefsIn(es) :: MeansOne(after, walked, r))
  {
    var after := Discriminated(st, walked, draw, 0).store;
    AllAreNamed(st, walked, draw, 0);
    GoodSupplyIsFresh(st, walked, draw, 0);
    FreshDrawsTellApart(st, walked, draw, 0);
    forall r <- RefsIn(es)
      ensures MeansOne(after, walked, r)
    {
      GraphRefsResolve(contents, st, es, walked, draw, r);
      StillMeansOne(st, walked, draw, r);
    }
  }

  lemma StillMeansOne(st: Store, walked: seq<BomRef>, draw: nat -> Name, r: BomRef)
    requires GoodSupply(st, walked, draw) && NoRepeats(walked) && Resolves(st, walked, r)
    ensures MeansOne(Discriminated(st, walked, draw, 0).store, walked, r)
  {
    var after := Discriminated(st, walked, draw, 0).store;
    AllAreNamed(st, walked, draw, 0);
    GoodSupplyIsFresh(st, walked, draw, 0);
    FreshDrawsTellApart(st, walked, draw, 0);
    ResolutionAfter(st, walked, draw, 0, r);
    assert forall i :: FirstHolder(st, walked, i, ValueIn(st, r)) ==> ListedOnce(walked, i);
    var w :| w in walked && KeyIn(after, w) == KeyIn(after, r);
    assert ValueIn(after, w).Some?;
  }

  // All refs of the graph have values while the document is written, listed twice or not.
  lemma GraphIsNamed(contents: Contents, st: Store, es: seq<RefEntry>, walked: seq<BomRef>, draw: nat -> Name)
    requires Writable(contents, st, es, walked, draw)
    ensures FullyNamed(KeyedIn(Discriminated(st, walked, draw, 0).store, es))
  {
    var after := Discriminated(st, walked, draw, 0).store;
    var g := KeyedIn(after, es);
    forall r <- RefsIn(es) ensures KeyIn(after, r).Named? {
      GraphRefsResolve(contents, st, es, walked, draw, r);
      AfterIsNamed(st, walked, draw, 0, r);
    }
    forall e <- g ensures e.ref.Named? && AllNamed(e.targets) {
      var i :| 0 <= i < |g| && g[i] == e;
      assert es[i] in es;
      forall k <- e.targets ensures k.Named? {
        var j :| 0 <= j < |e.targets| && e.targets[j] == k;
        assert es[i].targets[j] in es[i].targets;
      }
    }
  }

  // The graph of a written document can be read, and has the nodes and edges that were written.
  lemma DocumentReadsBack(contents: Contents, st: Store, es: seq<RefEntry>, walked: seq<BomRef>, digits: nat -> Name)
    requires Writable(contents, st, es, walked, Drawn("BomRef", digits))
    ensures var g := KeyedIn(Discriminated(st, walked, Drawn("BomRef", digits), 0).store, es);
            var read := Read(Shown(contents, st, es, walked, digits).dependencies);
            read.Some? && Nodes(read.value) == Nodes(g) && Edges(read.value) == Edges(g)
  {
    GraphIsNamed(contents, st, es, walked, Drawn("BomRef", digits));
    RoundTrip(KeyedIn(Discriminated(st, walked, Drawn("BomRef", digits), 0).store, es));
  }

  // `g` under the values `after` is the graph of the entries under `st`, up to the values: the same refs
  // are equal, the same are nodes, and the same pairs are edges.
  ghost predicate Isomorphic(st: Store, after: Store, es: seq<RefEntry>, g: seq<Entry>) {
    forall a <- RefsIn(es), b <- RefsIn(es) ::
      SameBetween(st, after, a, b) &&
      (KeyIn(after, a) in Nodes(g) <==> KeyIn(st, a) in Nodes(KeyedIn(st, es))) &&
      ((KeyIn(after, a), KeyIn(after, b)) in Edges(g) <==> (KeyIn(st, a), KeyIn(st, b)) in Edges(KeyedIn(st, es)))
  }

  // No two refs of the graph that are equal have to move.
  ghost predicate EqualsStayPut(st: Store, es: seq<RefEntry>, walked: seq<BomRef>) {
    forall a <- RefsIn(es), b <- RefsIn(es) :: NeedNotPart(st, walked, a, b)
  }

  ghost predicate SameEquality(st: Store, after: Store, es: seq<RefEntry>) {
    forall a <- RefsIn(es), b <- RefsIn(es) :: SameBetween(st, after, a, b)
  }

  lemma SameEqualityIff(contents: Contents, st: Store, es: seq<RefEntry>, walked: seq<BomRef>, draw: nat -> Name)
    requires Writable(contents, st, es, walked, draw)
    ensures SameEquality(st, Discriminated(st, walked, draw, 0).store, es) <==> EqualsStayPut(st, es, walked)
  {
    var after := Discriminated(st, walked, draw, 0).store;
    forall r <- RefsIn(es), s <- RefsIn(es)
      ensures SameBetween(st, after, r, s) <==> NeedNotPart(st, walked, r, s)
    {
      GraphRefsResolve(contents, st, es, walked, draw, r);
      GraphRefsResolve(contents, st, es, walked, draw, s);
      EqualityIsPreservedIff(st, walked, draw, 0, r, s);
    }
  }

  lemma IsomorphicIffSameEquality(st: Store, after: Store, es: seq<RefEntry>, g: seq<Entry>)
    requires Nodes(g) == Nodes(KeyedIn(after, es)) && Edges(g) == Edges(KeyedIn(after, es))
    ensures Isomorphic(st, after, es, g) <==> SameEquality(st, after, es)
  {
    if SameEquality(st, after, es) {
      forall a <- RefsIn(es), b <- RefsIn(es)
        ensures KeyIn(after, a) in Nodes(g) <==> KeyIn(st, a) in Nodes(KeyedIn(st, es))
        ensures (KeyIn(after, a), KeyIn(after, b)) in Edges(g) <==>
                (KeyIn(st, a), KeyIn(st, b)) in Edges(KeyedIn(st, es))
      {
        SameNodes(st, after, es, a);
        SameEdges(st, after, es, a, b);
      }
    }
  }

  // What is read back is the graph in memory, up to the names given, exactly if no two refs of the
  // graph that are equal have to move.
  lemma DocumentIsIsomorphicIff(contents: Contents, st: Store, es: seq<RefEntry>, walked: seq<BomRef>,
                                digits: nat -> Name)
    requires Writable(contents, st, es, walked, Drawn("BomRef", digits))
    ensures var after := Discriminated(st, walked, Drawn("BomRef", digits), 0).store;
            var read := Read(Shown(contents, st, es, walked, digits).dependencies);
            read.Some? && (Isomorphic(st, after, es, read.value) <==> EqualsStayPut(st, es, walked))
  {
    var after := Discriminated(st, walked, Drawn("BomRef", digits), 0).store;
    DocumentReadsBack(contents, st, es, walked, digits);
    SameEqualityIff(contents, st, es, walked, Drawn("BomRef", digits));
    IsomorphicIffSameEquality(st, after, es, Read(Shown(contents, st, es, walked, digits).dependencies).value);
  }

  // In particular if no ref is walked twice and no two walked refs have a value in common.
  lemma DocumentIsIsomorphic(contents: Contents, st: Store, es: seq<RefEntry>, walked: seq<BomRef>, digits: nat -> Name)
    requires Writable(contents, st, es, walked, Drawn("BomRef", digits))
    requires NoRepeats(walked) && NoSharing(st, walked)
    ensures var after := Discriminated(st, walked, Drawn("BomRef", digits), 0).store;
            var read := Read(Shown(contents, st, es, walked, digits).dependencies);
            read.Some? && Isomorphic(st, after, es, read.value)
  {
    DocumentIsIsomorphicIff(contents, st, es, walked, digits);
    forall a <- RefsIn(es), b <- RefsIn(es) | a != b && KeyIn(st, a) == KeyIn(st, b)
      ensures StaysPut(st, walked, a) && StaysPut(st, walked, b)
    {
      UnsharedStaysPut(st, walked, a);
      UnsharedStaysPut(st, walked, b);
    }
  }

  // Values under which the same graph refs are equal give the same nodes and edges.
  lemma SameNodes(st: Store, after: Store, es: seq<RefEntry>, a: BomRef)
    requires SameEquality(st, after, es) && a in RefsIn(es)
    ensures KeyIn(after, a) in Nodes(KeyedIn(after, es)) <==> KeyIn(st, a) in Nodes(KeyedIn(st, es))
  {
    forall i | 0 <= i < |es| ensures SameBetween(st, after, es[i].ref, a) {
      assert es[i] in es && es[i].ref in RefsIn(es);
    }
    NodesOfKeyed(after, es, KeyIn(after, a));
    NodesOfKeyed(st, es, KeyIn(st, a));
  }

  lemma SameEdges(st: Store, after: Store, es: seq<RefEntry>, a: BomRef, b: BomRef)
    requires SameEquality(st, after, es) && a in RefsIn(es) && b in RefsIn(es)
    ensures (KeyIn(after, a), KeyIn(after, b)) in Edges(KeyedIn(after, es)) <==>
            (KeyIn(st, a), KeyIn(st, b)) in Edges(KeyedIn(st, es))
  {
    forall i, j | 0 <= i < |es| && 0 <= j < |es[i].targets|
      ensures SameBetween(st, after, es[i].ref, a) && SameBetween(st, after, es[i].targets[j], b)
    {
      assert es[i] in es && es[i].targets[j] in es[i].targets;
    }
    EdgesOfKeyed(after, es, KeyIn(after, a), KeyIn(after, b));
    EdgesOfKeyed(st, es, KeyIn(st, a), KeyIn(st, b));
  }

  // ---------- refs that are written but not walked ----------

  // A ref that is not walked has a value, and no other ref comes to hold the same: neither one that
  // is not walked, nor the first walked holder of the value, which keeps it if it is walked once.
  ghost predicate StaysAlone(st: Store, walked: seq<BomRef>, refs: seq<BomRef>, r: BomRef) {
    ValueIn(st, r).Some? &&
    (forall s <- refs :: s !in walked && s != r ==> ValueIn(st, s) != ValueIn(st, r)) &&
    forall i :: FirstHolder(st, walked, i, ValueIn(st, r)) ==> !ListedOnce(walked, i)
  }

  // All refs written are told apart exactly if each one that the walk passes over, as it does with
  // equal nested components and nested services, stays alone with its value.
  lemma DocumentIsToldApartIff(contents: Contents, st: Store, walked: seq<BomRef>, draw: nat -> Name)
    requires multiset(walked) == multiset(contents.Walked(st))
    requires GoodSupply(st, contents.DocumentRefs(), draw)
    ensures var after, refs := Discriminated(st, walked, draw, 0).store, contents.DocumentRefs();
            (ToldApart(after, refs) && forall r <- refs :: ValueIn(after, r).Some?) <==>
            (forall r <- refs :: r !in walked ==> StaysAlone(st, walked, refs, r))
  {
    contents.WalksAreWritten(st, walked);
    ToldApartIffOthersAre(st, walked, contents.DocumentRefs(), draw);
  }

  lemma ToldApartIffOthersAre(st: Store, walked: seq<BomRef>, refs: seq<BomRef>, draw: nat -> Name)
    requires (forall w <- walked :: w in refs) && GoodSupply(st, refs, draw)
    ensures var after := Discriminated(st, walked, draw, 0).store;
            (ToldApart(after, refs) && forall r <- refs :: ValueIn(after, r).Some?) <==>
            (forall r <- refs :: r !in walked ==> StaysAlone(st, walked, refs, r))
  {
    var after := Discriminated(st, walked, draw, 0).store;
    assert GoodSupply(st, walked, draw);
    AllAreNamed(st, walked, draw, 0);
    OthersAreUntouched(st, walked, draw, 0);
    GoodSupplyIsFresh(st, walked, draw, 0);
    FreshDrawsTellApart(st, walked, draw, 0);
    forall r <- refs | r !in walked
      ensures ValueIn(after, r) == ValueIn(st, r)
      ensures ValueIn(st, r).Some? ==>
                ((exists w <- walked :: ValueIn(after, w) == ValueIn(st, r)) <==>
                 (exists i :: FirstHolder(st, walked, i, ValueIn(st, r)) && ListedOnce(walked, i)))
    {
      if ValueIn(st, r).Some? {
        WalkedKeeperIff(st, walked, draw, refs, r);
      }
    }
  }

  // Some walked ref comes to hold a value exactly if its first holder is walked once.
  lemma WalkedKeeperIff(st: Store, walked: seq<BomRef>, draw: nat -> Name, refs: seq<BomRef>, r: BomRef)
    requires (forall w <- walked :: w in refs) && GoodSupply(st, refs, draw)
    requires r in refs && ValueIn(st, r).Some?
    ensures (exists w <- walked :: ValueIn(Discriminated(st, walked, draw, 0).store, w) == ValueIn(st, r)) <==>
            (exists i :: FirstHolder(st, walked, i, ValueIn(st, r)) && ListedOnce(walked, i))
  {
    var after := Discriminated(st, walked, draw, 0).store;
    assert GoodSupply(st, walked, draw);
    if w :| w in walked && ValueIn(after, w) == ValueIn(st, r) {
      ChangedAreDrawn(st, walked, draw, 0, w);
      var m :| 0 <= m < |walked| && walked[m] == w;
      KeptIffFirstHolder(st, walked, draw, 0, m);
      assert FirstHolder(st, walked, m, ValueIn(st, r)) && ListedOnce(walked, m);
    }
    if i: nat :| FirstHolder(st, walked, i, ValueIn(st, r)) && ListedOnce(walked, i) {
      KeptIffFirstHolder(st, walked, draw, 0, i);
      assert walked[i] in walked;
    }
  }

  // A nested component that is left out for an equal one has no value, or that of a walked ref; it
  // may then stay alone only if the first walked ref with that value is walked twice.
  lemma LeftOutComponentIsNotToldApart(st: Store, contents: Contents, c: Components.Component)
    requires c in Components.PreorderAll(contents.Roots()) && c.bomRef !in contents.Walked(st)
    ensures exists w <- contents.Walked(st) :: ValueIn(st, w) == ValueIn(st, c.bomRef)
    ensures NoRepeats(contents.Walked(st)) ==> !StaysAlone(st, contents.Walked(st), contents.DocumentRefs(), c.bomRef)
  {
    var roots, walked := contents.Roots(), contents.Walked(st);
    var x := WalkCovers(st, roots, c);
    Components.EqualComponentsShareFields(st, x.element, c);
    var i :| 0 <= i < |Walk(st, roots)| && Walk(st, roots)[i] == x;
    assert ItemRefs(Walk(st, roots))[i] == x.element.bomRef == walked[i];
    var first := FirstHolderExists(st, walked, i);
    assert NoRepeats(walked) ==> ListedOnce(walked, first);
  }

  // Two equal components without values, each below a component of its own: only the first is
  // walked, and the ref of the second is written without a value.
  lemma EqualTwinsAreNotBothTold(refs: seq<BomRef>, draw: nat -> Name)
    requires |refs| == 5 && NoRepeats(refs)
    ensures var st: Store := map[];
            var contents := Contents(None, [], [Family(refs)], [], []);
            refs[4] in contents.DocumentRefs() && refs[4] !in contents.Walked(st) &&
            ValueIn(Discriminated(st, contents.Walked(st), draw, 0).store, refs[4]) == None
  {
    TwinsAreWalkedOnce(refs);
    OthersAreUntouched(map[], Contents(None, [], [Family(refs)], [], []).Walked(map[]), draw, 0);
  }

  function Plain(name: string, r: BomRef, components: seq<Components.Component>): Components.Component {
    Components.Component(Str("library"), Nothing, Str(name), Nothing, r, Nothing, [], [], Nothing, [], Nothing,
                         components, Nothing)
  }

  // A root over two components, with a leaf under each.
  function Family(refs: seq<BomRef>): Components.Component
    requires |refs| == 5
  {
    Plain("root", refs[0], [Plain("left", refs[1], [Plain("leaf", refs[2], [])]),
                            Plain("right", refs[3], [Plain("leaf", refs[4], [])])])
  }

  function Members(refs: seq<BomRef>): seq<Components.Component>
    requires |refs| == 5
  {
    var root := Family(refs);
    var left, right := root.components[0], root.components[1];
    [root, left, left.components[0], right, right.components[0]]
  }

  lemma FamilyPreorder(refs: seq<BomRef>)
    requires |refs| == 5
    ensures Components.PreorderAll([Family(refs)]) == Components.Preorder(Family(refs)) == Members(refs)
  {
    var ms := Members(refs);
    PreorderOfOne(ms[2]);
    PreorderOfOne(ms[4]);
    PreorderOfOne(ms[0]);
    assert Components.Preorder(ms[1]) == [ms[1]] + Components.PreorderAll([ms[2]]) == ms[1..3];
    assert Components.Preorder(ms[3]) == [ms[3]] + Components.PreorderAll([ms[4]]) == ms[3..];
    PreorderOfOne(ms[3]);
    assert ms[0].components == [ms[1], ms[3]] && [ms[1], ms[3]][1..] == [ms[3]];
    assert Components.PreorderAll([ms[1], ms[3]]) == ms[1..3] + ms[3..];
  }

  lemma PreorderOfOne(c: Components.Component)
    ensures Components.PreorderAll([c]) == Components.Preorder(c)
    ensures c.components == [] ==> Components.Preorder(c) == [c]
  {
    assert [c][1..] == [] && Components.PreorderAll([c][1..]) == [];
  }

  // The second leaf equals the first while neither has a value.
  lemma TwinsAreWalkedOnce(refs: seq<BomRef>)
    requires |refs| == 5 && NoRepeats(refs)
    ensures var contents := Contents(None, [], [Family(refs)], [], []);
            refs[4] in contents.DocumentRefs() && refs[4] !in contents.Walked(map[])
  {
    var st: Store, ms := map[], Members(refs);
    var contents, root := Contents(None, [], [Family(refs)], [], []), Family(refs);
    FamilyPreorder(refs);
    assert contents.Roots() == [root];
    RefOfComponent(ms, ms[4]);

    var xs := Components.Valued(st, ms);
    assert ms[2] == Plain("leaf", refs[2], []) && ms[4] == Plain("leaf", refs[4], []);
    assert Components.ComponentFields(st, ms[2]) == Components.ComponentFields(st, ms[4]);
    assert xs[2].value == xs[4].value;
    ValueSets.IncludeAllCovers([], xs[..4], 2);
    assert Components.NestedComponents(st, root) == ValueSets.FirstOfEach(xs[..4]);
    ValueSets.FirstOfEachIsASet(xs[..4]);
    assert Walk(st, [root]) == Walk(st, [root][..0]) + Components.NestedComponents(st, root);
    var walk := Walk(st, [root]);
    forall i | 0 <= i < |walk| ensures walk[i].element.bomRef != refs[4] {
      assert walk[i] in xs[..4];
      var k :| 0 <= k < 4 && xs[k] == walk[i];
      assert ms[k].bomRef == refs[k];
    }
  }

  // ---------- what stands in the document ----------

  // There is one id for each ref written: the value it had, if it stays put, and else a name drawn for
  // it. A ref that is walked has one in any case.
  lemma DocumentIdsAre(contents: Contents, st: Store, es: seq<RefEntry>, walked: seq<BomRef>, digits: nat -> Name)
    requires GoodSupply(st, walked, Drawn("BomRef", digits))
    ensures var ids, refs := Shown(contents, st, es, walked, digits).ids, contents.DocumentRefs();
            && |ids| == |refs|
            && (forall i :: 0 <= i < |refs| ==>
                  if StaysPut(st, walked, refs[i]) then ids[i] == ValueIn(st, refs[i])
                  else exists k: nat :: ids[i].Some? && ids[i].value == "BomRef" + digits(k))
            && (forall i :: 0 <= i < |refs| && refs[i] in walked ==> ids[i].Some?)
  {
    var draw, refs := Drawn("BomRef", digits), contents.DocumentRefs();
    var after := Discriminated(st, walked, draw, 0).store;
    AllAreNamed(st, walked, draw, 0);
    forall i | 0 <= i < |refs| && !StaysPut(st, walked, refs[i])
      ensures exists k: nat :: ValueIn(after, refs[i]) == Some(draw(k))
    {
      ValueIsKeptIff(st, walked, draw, 0, refs[i]);
      ChangedAreDrawn(st, walked, draw, 0, refs[i]);
    }
    forall i | 0 <= i < |refs| && StaysPut(st, walked, refs[i])
      ensures ValueIn(after, refs[i]) == ValueIn(st, refs[i])
    {
      ValueIsKeptIff(st, walked, draw, 0, refs[i]);
    }
  }

  // The records show the refs of the entries and of their targets, in their order, under the values
  // that they have meanwhile.
  lemma DocumentRecordsAre(contents: Contents, st: Store, es: seq<RefEntry>, walked: seq<BomRef>, digits: nat -> Name)
    ensures var after := Discriminated(st, walked, Drawn("BomRef", digits), 0).store;
            var rs := Shown(contents, st, es, walked, digits).dependencies;
            |rs| == |es| &&
            forall i :: 0 <= i < |es| ==>
              rs[i].ref == ValueIn(after, es[i].ref) && |rs[i].dependsOn| == |es[i].targets| &&
              forall j :: 0 <= j < |es[i].targets| ==>
                var v := ValueIn(after, es[i].targets[j]);
                rs[i].dependsOn[j] == if v.Some? then v.value else ""
  {
  }

  // `text` is the id of an object of the document that was equal to `r` before.
  ghost predicate LinksTo(st: Store, refs: seq<BomRef>, ids: seq<Option<Name>>, r: BomRef, text: string) {
    exists n :: 0 <= n < |refs| && n < |ids| && KeyIn(st, refs[n]) == KeyIn(st, r) &&
                ids[n].Some? && ids[n].value == text
  }

  // There is a record for each entry, and its texts are the ids of what the entry is about.
  ghost predicate Linked(st: Store, refs: seq<BomRef>, es: seq<RefEntry>, d: Document) {
    |d.dependencies| == |es| &&
    forall i :: 0 <= i < |es| ==>
      var record := d.dependencies[i];
      record.ref.Some? && LinksTo(st, refs, d.ids, es[i].ref, record.ref.value) &&
      |record.dependsOn| == |es[i].targets| &&
      forall j :: 0 <= j < |record.dependsOn| ==> LinksTo(st, refs, d.ids, es[i].targets[j], record.dependsOn[j])
  }

  // Unless an object is walked twice, what the records show are ids of the same document, of objects
  // that the refs of the graph were equal to.
  lemma DocumentIsLinked(contents: Contents, st: Store, es: seq<RefEntry>, walked: seq<BomRef>, digits: nat -> Name)
    requires Writable(contents, st, es, walked, Drawn("BomRef", digits)) && NoRepeats(walked)
    ensures Linked(st, contents.DocumentRefs(), es, Shown(contents, st, es, walked, digits))
  {
    var d, refs := Shown(contents, st, es, walked, digits), contents.DocumentRefs();
    DocumentRecordsAre(contents, st, es, walked, digits);
    forall i | 0 <= i < |es|
      ensures d.dependencies[i].ref.Some? && LinksTo(st, refs, d.ids, es[i].ref, d.dependencies[i].ref.value)
      ensures forall j :: 0 <= j < |d.dependencies[i].dependsOn| ==>
                LinksTo(st, refs, d.ids, es[i].targets[j], d.dependencies[i].dependsOn[j])
    {
      assert es[i] in es && es[i].ref in RefsIn(es);
      GraphRefIsLinked(contents, st, es, walked, digits, es[i].ref);
      forall j | 0 <= j < |d.dependencies[i].dependsOn|
        ensures LinksTo(st, refs, d.ids, es[i].targets[j], d.dependencies[i].dependsOn[j])
      {
        assert es[i].targets[j] in es[i].targets;
        GraphRefIsLinked(contents, st, es, walked, digits, es[i].targets[j]);
      }
    }
  }

  lemma GraphRefIsLinked(contents: Contents, st: Store, es: seq<RefEntry>, walked: seq<BomRef>,
                         digits: nat -> Name, r: BomRef)
    requires Writable(contents, st, es, walked, Drawn("BomRef", digits)) && NoRepeats(walked) && r in RefsIn(es)
    ensures var v := ValueIn(Discriminated(st, walked, Drawn("BomRef", digits), 0).store, r);
            v.Some? && LinksTo(st, contents.DocumentRefs(), Shown(contents, st, es, walked, digits).ids, r, v.value)
  {
    var draw := Drawn("BomRef", digits);
    GraphRefsResolve(contents, st, es, walked, draw, r);
    var w := MeansWhatItMeant(st, walked, draw, r);
    AllAreNamed(st, walked, draw, 0);
    contents.WalksAreWritten(st, walked);
    var n :| 0 <= n < |contents.DocumentRefs()| && contents.DocumentRefs()[n] == w;
  }

  lemma MeansWhatItMeant(st: Store, walked: seq<BomRef>, draw: nat -> Name, r: BomRef) returns (w: BomRef)
    requires GoodSupply(st, walked, draw) && NoRepeats(walked) && Resolves(st, walked, r)
    ensures w in walked && KeyIn(st, w) == KeyIn(st, r)
    ensures var after := Discriminated(st, walked, draw, 0).store; ValueIn(after, w) == ValueIn(after, r)
  {
    if r in walked {
      w := r;
    } else {
      var v :| v in walked && KeyIn(st, v) == KeyIn(st, r);
      var after := Discriminated(st, walked, draw, 0).store;
      StillMeansOne(st, walked, draw, r);
      OthersAreUntouched(st, walked, draw, 0);
      w :| w in walked && ValueIn(after, w) == ValueIn(after, r);
      OldValuesAreNotDrawn(st, walked, draw, 0, v, w);
    }
  }

  // In particular all texts in the records are ids.
  lemma LinkedTextsAreIds(st: Store, refs: seq<BomRef>, es: seq<RefEntry>, d: Document)
    requires Linked(st, refs, es, d)
    ensures forall r <- d.dependencies ::
              r.ref.Some? && r.ref in d.ids && forall t <- r.dependsOn :: t != "" && Some(t) in d.ids
  {
    forall r <- d.dependencies
      ensures r.ref.Some? && r.ref in d.ids && forall t <- r.dependsOn :: t != "" && Some(t) in d.ids
    {
      var i :| 0 <= i < |d.dependencies| && d.dependencies[i] == r;
      forall t <- r.dependsOn ensures t != "" && Some(t) in d.ids {
        var j :| 0 <= j < |r.dependsOn| && r.dependsOn[j] == t;
      }
    }
  }

  // What a successful `generate` leaves: a text whose graph can be read back, and which was written
  // while each ref of the graph had the value of exactly one walked ref. The text then links each record
  // to the ids of the objects it is about.
  lemma GeneratedTextIsSound(j: Json, digits: nat -> Name)
    requires Checked(j.bom.contents, j.bom.Values(), j.bom.Graph()) == Valid
    requires multiset(j.walked) == multiset(j.bom.contents.Walked(j.bom.Values()))
    requires GoodSupply(j.bom.Values(), j.walked, Drawn("BomRef", digits))
    requires j.bomJson.Some?
    requires j.bomJson.value.body ==
             Shown(j.bom.contents, j.bom.Values(), EntriesOf(j.bom.dependencies), j.walked, digits)
    ensures var es := EntriesOf(j.bom.dependencies);
            var after := Discriminated(j.bom.Values(), j.walked, Drawn("BomRef", digits), 0).store;
            var read := Read(j.bomJson.value.body.dependencies);
            && read.Some? && Nodes(read.value) == Nodes(KeyedIn(after, es))
            && Edges(read.value) == Edges(KeyedIn(after, es))
            && (NoRepeats(j.walked) ==>
                  ToldApart(after, j.walked) && forall r <- RefsIn(es) :: MeansOne(after, j.walked, r))
    ensures NoRepeats(j.walked) ==>
              var d := j.bomJson.value.body;
              forall r <- d.dependencies ::
                r.ref.Some? && r.ref in d.ids && forall t <- r.dependsOn :: t != "" && Some(t) in d.ids
  {
    var st, es := j.bom.Values(), EntriesOf(j.bom.dependencies);
    j.bom.DecidedBy(st, es);
    DocumentReadsBack(j.bom.contents, st, es, j.walked, digits);
    if NoRepeats(j.walked) {
      GraphRefsMeanOneRef(j.bom.contents, st, es, j.walked, Drawn("BomRef", digits));
      DocumentIsLinked(j.bom.contents, st, es, j.walked, digits);
      LinkedTextsAreIds(st, j.bom.contents.DocumentRefs(), es, j.bomJson.value.body);
    }
  }
}
