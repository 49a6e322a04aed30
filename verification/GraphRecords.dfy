/** The dependency graph in a document: one record per entry, its targets written as strings. */
module GraphRecords {
  import opened BomRefs
  import opened SortedSets
  import opened Compare
  import opened Dependencies
  import opened Graph
  import opened HashedSets
  import opened Text

  // `ref` is absent when the bom-ref has no value; a target without a value is written as "".
  datatype Record = Record(ref: Option<Name>, dependsOn: seq<string>)

  function WriteEntry(e: Entry): Record {
    Record(e.ref.Value(), seq(|e.targets|, i requires 0 <= i < |e.targets| => e.targets[i].Text()))
  }

  function Write(g: seq<Entry>): seq<Record> {
    seq(|g|, i requires 0 <= i < |g| => WriteEntry(g[i]))
  }

  // A record can be read back when each of its refs names something. An absent `ref` does not
  // construct, and "" would become a new anonymous ref that nothing else in the document equals.
  predicate Readable(r: Record) {
    r.ref.Some? && forall t <- r.dependsOn :: t != ""
  }

  function Names(texts: seq<string>): (keys: seq<RefKey>)
    requires forall t <- texts :: t != ""
    ensures |keys| == |texts| && forall i :: 0 <= i < |texts| ==> texts[i] in texts && keys[i] == Named(texts[i])
  {
    seq(|texts|, i requires 0 <= i < |texts| => assert texts[i] in texts; Named(texts[i]))
  }

  function ReadTargets(texts: seq<string>): seq<RefKey>
    requires forall t <- texts :: t != ""
  {
    FromSeq(KeyLess, Names(texts))
  }

  /** `deserialize` of the targets of a record: a set of new entries, each with a new ref. */
  method DeserializeTargets(texts: seq<string>) returns (ds: seq<Dependency>)
    ensures forall d <- ds :: fresh(d) && fresh(d.ref) && d.dependencies == []
    ensures (forall t <- texts :: t != "") ==> Keys(RefsOf(ds)) == ReadTargets(texts)
  {
    ds := [];
    var hashed: map<Dependency, RefKey> := map[];
    ghost var legible := forall t <- texts :: t != "";
    ghost var names := if legible then Names(texts) else [];
    ghost var members: seq<Member> := [];
    for i := 0 to |texts|
      invariant forall d <- ds :: fresh(d) && fresh(d.ref) && d.dependencies == []
      invariant MembersOf(ds, hashed) == members && Settled(members) && AllFlatMembers(members)
      invariant legible ==> KeysOf(members) == FromSeq(KeyLess, names[..i])
    {
      ghost var before, earlier := ds, hashed;
      var r := new BomRef(Some(texts[i]));
      ds, hashed := AddFlat(ds, hashed, r);
      assert MembersOf(before, earlier) == members;
      SettledAdds(members, r.Key());
      members := AddMember(members, r.Key());
      if legible {
        AddAllOneMore([], names, i);
      }
    }
    assert legible ==> names[..|texts|] == names;
    KeysOfMembers(ds, hashed);
  }

  function ReadRecord(r: Record): Entry
    requires Readable(r)
  {
    Entry(Named(r.ref.value), ReadTargets(r.dependsOn))
  }

  predicate EntryIsLess(a: Entry, b: Entry) {
    IsLess(EntryValue(a), EntryValue(b))
  }

  /** The sorted set of the entries read, or nothing when some ref names nothing. */
  function Read(rs: seq<Record>): Option<seq<Entry>> {
    if forall r <- rs :: Readable(r) then
      Some(FromSeq(EntryIsLess, seq(|rs|, i requires 0 <= i < |rs| => assert rs[i] in rs; ReadRecord(rs[i]))))
    else
      None
  }

  lemma WrittenIsReadable(e: Entry)
    ensures Readable(WriteEntry(e)) <==> e.ref.Named? && AllNamed(e.targets)
  {
    var texts := WriteEntry(e).dependsOn;
    forall i | 0 <= i < |e.targets| ensures e.targets[i].Named? <==> texts[i] != "" {
    }
    if AllNamed(e.targets) {
      forall t <- texts ensures t != "" {
        var i :| 0 <= i < |texts| && texts[i] == t;
        assert e.targets[i] in e.targets;
      }
    }
    if forall t <- texts :: t != "" {
      forall k <- e.targets ensures k.Named? {
        var i :| 0 <= i < |e.targets| && e.targets[i] == k;
        assert texts[i] in texts;
      }
    }
  }

  lemma ReadBackEntry(e: Entry)
    requires e.ref.Named? && AllNamed(e.targets)
    ensures Readable(WriteEntry(e))
    ensures var r := ReadRecord(WriteEntry(e));
            r.ref == e.ref && Elements(r.targets) == Elements(e.targets) &&
            (WellSorted(e.targets) ==> r == e)
  {
    WrittenIsReadable(e);
    var texts := WriteEntry(e).dependsOn;
    var keys := Names(texts);
    forall i | 0 <= i < |texts| ensures keys[i] == e.targets[i] {
      assert e.targets[i] in e.targets;
    }
    assert keys == e.targets && ReadTargets(texts) == FromSeq(KeyLess, keys);
    TotalIffSeparable(Elements(keys));
    FromSeqSorted(KeyLess, keys);
    if WellSorted(e.targets) {
      WeaklySortedIsSorted(KeyLess, keys);
      SortedIsFixed(KeyLess, keys);
    }
  }

  lemma RelationIsElementwise(g: seq<Entry>, h: seq<Entry>)
    requires |g| == |h|
    requires forall i :: 0 <= i < |g| ==> g[i].ref == h[i].ref && Elements(g[i].targets) == Elements(h[i].targets)
    ensures Nodes(g) == Nodes(h) && Edges(g) == Edges(h)
  {
    if g != [] {
      assert g == [g[0]] + g[1..] && h == [h[0]] + h[1..];
      RelationIsElementwise(g[1..], h[1..]);
      RelationOfConcat([g[0]], g[1..]);
      RelationOfConcat([h[0]], h[1..]);
      RelationOfOne(g[0]);
      RelationOfOne(h[0]);
      assert forall t :: t in g[0].targets <==> t in Elements(g[0].targets);
      assert forall t :: t in h[0].targets <==> t in Elements(h[0].targets);
      assert Star(g[0].ref, g[0].targets) == Star(h[0].ref, h[0].targets);
    }
  }

  lemma RelationIsOfElements(g: seq<Entry>, h: seq<Entry>)
    requires forall e :: e in g <==> e in h
    ensures Nodes(g) == Nodes(h) && Edges(g) == Edges(h)
  {
  }

  // A graph can be read back exactly when all its refs have values; reading then restores every
  // node and edge, and of a graph built by registration the very same entries in the same order.
  lemma RoundTrip(g: seq<Entry>)
    ensures Read(Write(g)).Some? <==> FullyNamed(g)
    ensures FullyNamed(g) ==>
              Nodes(Read(Write(g)).value) == Nodes(g) && Edges(Read(Write(g)).value) == Edges(g)
    ensures FullyNamed(g) && WellFormed(g) ==> Read(Write(g)).value == g
  {
    var rs := Write(g);
    forall i | 0 <= i < |g| ensures Readable(rs[i]) <==> g[i].ref.Named? && AllNamed(g[i].targets) {
      WrittenIsReadable(g[i]);
    }
    assert (forall r <- rs :: Readable(r)) <==> FullyNamed(g) by {
      assert FullyNamed(g) ==> forall i :: 0 <= i < |g| ==> g[i] in g;
      assert forall i :: 0 <= i < |rs| ==> rs[i] in rs;
    }
    if FullyNamed(g) {
      var es := seq(|rs|, i requires 0 <= i < |rs| => assert rs[i] in rs; ReadRecord(rs[i]));
      assert Read(rs) == Some(FromSeq(EntryIsLess, es));
      forall i | 0 <= i < |g|
        ensures es[i].ref == g[i].ref && Elements(es[i].targets) == Elements(g[i].targets)
        ensures WellFormed(g) ==> es[i] == g[i]
      {
        assert g[i] in g;
        ReadBackEntry(g[i]);
      }
      RelationIsElementwise(es, g);
      AddAllKeeps(EntryIsLess, [], es);
      RelationIsOfElements(FromSeq(EntryIsLess, es), es);
      if WellFormed(g) {
        assert es == g;
        SortedEntriesAreFixed(g);
      }
    }
  }

  lemma SortedEntriesAreFixed(g: seq<Entry>)
    requires FullyNamed(g) && WellFormed(g)
    ensures FromSeq(EntryIsLess, g) == g
  {
    forall i | 0 <= i < |g| ensures g[i].ref.Named? {
      assert g[i] in g;
    }
    assert Separable(Nodes(g));
    StrictlySortedIffSeparable(g);
    assert Sorted(EntryIsLess, g) by {
      forall i, j | 0 <= i < j < |g| ensures EntryIsLess(g[i], g[j]) {
        assert IsLess(Values(g)[i], Values(g)[j]);
      }
    }
    forall a <- g, b <- g | EntryIsLess(a, b) ensures !EntryIsLess(b, a) {
      LessAsymmetric(EntryValue(a), EntryValue(b));
    }
    SortedIsStrictTotal(EntryIsLess, g);
    SortedIsFixed(EntryIsLess, g);
  }

  // ---------- what stands in the records ----------

  // Targets are written in the order of their values, those without one first, as "".
  lemma TargetsWrittenInOrder(e: Entry, i: nat, j: nat)
    requires WellSorted(e.targets) && i < j < |e.targets|
    ensures var texts := WriteEntry(e).dependsOn;
            |texts| == |e.targets| && !StringLess(texts[j], texts[i]) &&
            (texts[i] != "" ==> StringLess(texts[i], texts[j]))
  {
    KeysInTextOrder(e.targets, i, j);
    assert !KeyLess(e.targets[j], e.targets[i]);
  }

  // A graph made by registration is written in the order of the values of its refs.
  lemma WrittenInOrder(g: seq<Entry>)
    requires WellFormed(g) && FullyNamed(g)
    ensures var rs := Write(g);
            |rs| == |g| && (forall r <- rs :: r.ref.Some?) &&
            (forall i, j :: 0 <= i < j < |rs| ==> StringLess(rs[i].ref.value, rs[j].ref.value)) &&
            forall r <- rs, i, j :: 0 <= i < j < |r.dependsOn| ==> StringLess(r.dependsOn[i], r.dependsOn[j])
  {
    var rs := Write(g);
    forall i | 0 <= i < |g| ensures g[i].ref.Named? && rs[i].ref == Some(g[i].ref.name) {
      assert g[i] in g;
    }
    forall i, j | 0 <= i < j < |rs| ensures StringLess(rs[i].ref.value, rs[j].ref.value) {
      KeysInTextOrder(Refs(g), i, j);
    }
    forall r <- rs, i, j | 0 <= i < j < |r.dependsOn| ensures StringLess(r.dependsOn[i], r.dependsOn[j]) {
      var n :| 0 <= n < |rs| && rs[n] == r;
      assert g[n] in g && g[n].targets[i] in g[n].targets;
      TargetsWrittenInOrder(g[n], i, j);
    }
  }

  // Whatever records are read, in whatever order and with whatever repeats, they give just the nodes
  // and edges they name, and an entry is missing or names nothing exactly if none are read.
  lemma ReadRelation(rs: seq<Record>)
    ensures Read(rs).Some? <==> forall r <- rs :: r.ref.Some? && "" !in r.dependsOn
    ensures Read(rs).Some? ==>
              (forall k :: k in Nodes(Read(rs).value) <==> exists r <- rs :: k == Named(r.ref.value)) &&
              forall k, l :: (k, l) in Edges(Read(rs).value) <==>
                             exists r <- rs :: k == Named(r.ref.value) && l.Named? && l.name in r.dependsOn
  {
    forall r <- rs ensures Readable(r) <==> r.ref.Some? && "" !in r.dependsOn {
    }
    if Read(rs).Some? {
      ReadNodesAndEdges(rs);
    }
  }

  lemma ReadNodesAndEdges(rs: seq<Record>)
    requires forall r <- rs :: Readable(r)
    ensures forall k :: k in Nodes(Read(rs).value) <==> exists r <- rs :: k == Named(r.ref.value)
    ensures forall k, l :: (k, l) in Edges(Read(rs).value) <==>
                           exists r <- rs :: k == Named(r.ref.value) && l.Named? && l.name in r.dependsOn
  {
    var es := seq(|rs|, i requires 0 <= i < |rs| => assert rs[i] in rs; ReadRecord(rs[i]));
    AddAllKeeps(EntryIsLess, [], es);
    RelationIsOfElements(Read(rs).value, es);
    forall i | 0 <= i < |rs| ensures es[i] in es && rs[i] in rs && es[i] == ReadRecord(rs[i]) {
    }
    forall k ensures k in Nodes(es) <==> exists r <- rs :: k == Named(r.ref.value) {
    }
    forall k, l
      ensures (k, l) in Edges(es) <==> exists r <- rs :: k == Named(r.ref.value) && l.Named? && l.name in r.dependsOn
    {
      forall r <- rs ensures l in ReadTargets(r.dependsOn) <==> l.Named? && l.name in r.dependsOn {
        TargetsRead(r.dependsOn, l);
      }
    }
  }

  lemma TargetsRead(texts: seq<string>, l: RefKey)
    requires forall t <- texts :: t != ""
    ensures l in ReadTargets(texts) <==> l.Named? && l.name in texts
  {
    var names := Names(texts);
    AddAllKeeps(KeyLess, [], names);
    if l.Named? && l.name in texts {
      var i :| 0 <= i < |texts| && texts[i] == l.name;
      assert names[i] == l;
    }
  }
}
