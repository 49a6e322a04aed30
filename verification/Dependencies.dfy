/** Entries of the dependency graph as the objects a BOM holds and updates in place. */
module Dependencies {
  import opened BomRefs
  import opened SortedSets
  import opened Compare
  import opened Graph
  import opened HashedSets

  // The keys that a list of refs has at present.
  function Keys(refs: seq<BomRef>): (keys: seq<RefKey>)
    reads refs
    ensures |keys| == |refs|
    ensures forall i :: 0 <= i < |refs| ==> keys[i] == refs[i].Key()
  {
    seq(|refs|, i requires 0 <= i < |refs| reads refs => refs[i].Key())
  }

  class Dependency {
    const ref: BomRef
    var dependencies: seq<Dependency>     // lists a sorted set
    var hashed: map<Dependency, RefKey>  // the keys by which the set hashed those added without dependencies

    constructor (ref: BomRef)
      ensures this.ref == ref && dependencies == []
    {
      this.ref := ref;
      dependencies := [];
      hashed := map[];
    }

    // `Dependency(r) == this`, where the new entry has no dependencies.
    predicate EqualsFlat(r: BomRef)
      reads this, r, ref
    {
      r.Equals(ref) && dependencies == []
    }

    // `Dependency(r) < this`: a different ref decides, and of two equal refs the new entry,
    // whose missing dependencies read as None, is never the lesser.
    predicate GreaterThanFlat(r: BomRef)
      reads r, ref
    {
      !r.Equals(ref) && r.LessThan(ref)
    }

    // The dependencies with one of the keys that its set would not find.
    ghost function Missed(ks: seq<RefKey>): set<Dependency>
      reads this, RefsOf(dependencies)
    {
      MissedIn(dependencies, hashed, ks)
    }

    // Its set would find all of its dependencies.
    ghost predicate FindsAll()
      reads this, RefsOf(dependencies)
    {
      Missed(Keys(RefsOf(dependencies))) == {}
    }

    // `self.dependencies.update(map(Dependency, dependsOn))`. The set may be listed anew on the way,
    // which leaves open how refs without values follow on each other; and what it does not find, as
    // the value of a ref changed after it was added, it adds again.
    method Update(dependsOn: seq<BomRef>)
      modifies this
      ensures forall d <- dependencies :: d in old(dependencies) || (fresh(d) && d.dependencies == [])
      ensures Elements(Keys(RefsOf(dependencies))) ==
              old(Elements(Keys(RefsOf(dependencies))) + Elements(Keys(dependsOn)))
      ensures old(WeaklySorted(KeyLess, Keys(RefsOf(dependencies)))) ==>
                WeaklySorted(KeyLess, Keys(RefsOf(dependencies)))
      ensures old(AllFlat(dependencies)) ==>
                AllFlat(dependencies) &&
                (Distinct(Keys(RefsOf(dependencies))) <==>
                 old(Distinct(Keys(RefsOf(dependencies))) && Missed(Keys(dependsOn)) == {}))
      ensures old(FindsAll()) ==> FindsAll()
    {
      var all, hashes := UpdatedSet(dependencies, hashed, dependsOn);
      ghost var keys, missed := Keys(RefsOf(all)), MissedIn(all, hashes, Keys(RefsOf(all)));
      dependencies, hashed := all, hashes;
      assert Keys(RefsOf(all)) == keys;
      assert MissedIn(all, hashes, keys) == missed;
    }
  }

  // The entries with one of the keys that the set does not find, as it hashed them by another.
  ghost function MissedIn(ds: seq<Dependency>, hashed: map<Dependency, RefKey>, ks: seq<RefKey>): set<Dependency>
    reads RefsOf(ds)
  {
    RefsAreListed(ds);
    set n <- ds | n.ref.Key() in ks && !(n in hashed && hashed[n] == n.ref.Key())
  }

  lemma RefsAreListed(ds: seq<Dependency>)
    ensures forall d <- ds :: d.ref in RefsOf(ds)
  {
    forall d <- ds ensures d.ref in RefsOf(ds) {
      var i :| 0 <= i < |ds| && ds[i] == d;
      assert RefsOf(ds)[i] == d.ref;
    }
  }

  // The dependencies of an entry as members of its set.
  function MembersOf(ds: seq<Dependency>, hashed: map<Dependency, RefKey>): (ms: seq<Member>)
    reads ds, RefsOf(ds)
    ensures |ms| == |ds|
    ensures forall i :: 0 <= i < |ds| ==> ms[i] == MemberOf(ds[i], hashed)
  {
    seq(|ds|, i requires 0 <= i < |ds| reads ds, RefsOf(ds) =>
          assert RefsOf(ds)[i] == ds[i].ref; MemberOf(ds[i], hashed))
  }

  lemma KeysOfMembers(ds: seq<Dependency>, hashed: map<Dependency, RefKey>)
    ensures KeysOf(MembersOf(ds, hashed)) == Keys(RefsOf(ds))
  {
  }

  // What holds of a set of entries holds of its members.
  lemma MembersAre(ds: seq<Dependency>, hashed: map<Dependency, RefKey>, ks: seq<RefKey>)
    ensures var ms := MembersOf(ds, hashed);
            KeysOf(ms) == Keys(RefsOf(ds)) && (AllFlatMembers(ms) <==> AllFlat(ds)) &&
            (SettledFor(ms, ks) <==> MissedIn(ds, hashed, ks) == {})
  {
    var ms := MembersOf(ds, hashed);
    forall m <- ms ensures exists n <- ds :: m == MemberOf(n, hashed) {
      var i :| 0 <= i < |ms| && ms[i] == m;
      assert ds[i] in ds;
    }
    forall n <- ds ensures MemberOf(n, hashed) in ms {
      var i :| 0 <= i < |ms| && ds[i] == n;
      assert ms[i] in ms;
    }
    forall n <- ds | n.ref.Key() in ks && !(n in hashed && hashed[n] == n.ref.Key())
      ensures n in MissedIn(ds, hashed, ks)
    {
    }
  }

  function MemberOf(d: Dependency, hashed: map<Dependency, RefKey>): Member
    reads d, d.ref
  {
    Member(d.ref.Key(), if d in hashed then Some(hashed[d]) else None, d.dependencies == [])
  }

  // `update` of a sorted set of entries with new entries that have no dependencies: one after the other,
  method AddAllFlat(ds: seq<Dependency>, hashed: map<Dependency, RefKey>, dependsOn: seq<BomRef>)
    returns (all: seq<Dependency>, hashes: map<Dependency, RefKey>)
    ensures forall d <- all :: d in ds || (fresh(d) && d.dependencies == [])
    ensures MembersOf(all, hashes) == AddMembers(MembersOf(ds, hashed), Keys(dependsOn))
  {
    all, hashes := ds, hashed;
    ghost var members, added := MembersOf(ds, hashed), Keys(dependsOn);
    ghost var now := members;
    for i := 0 to |dependsOn|
      invariant forall d <- all :: d in ds || (fresh(d) && d.dependencies == [])
      invariant MembersOf(all, hashes) == now
      invariant now == AddMembers(members, added[..i])
    {
      ghost var before, earlier := all, hashes;
      all, hashes := AddFlat(all, hashes, dependsOn[i]);
      assert MembersOf(before, earlier) == now && dependsOn[i].Key() == added[i];
      AddMembersOneMore(members, added, i);
      now := AddMember(now, added[i]);
    }
    assert added[..|dependsOn|] == added == Keys(dependsOn) && MembersOf(ds, hashed) == members;
  }

  // with these effects, which do not depend on the order among refs without values.
  method UpdatedSet(ds: seq<Dependency>, hashed: map<Dependency, RefKey>, dependsOn: seq<BomRef>)
    returns (all: seq<Dependency>, hashes: map<Dependency, RefKey>)
    ensures forall d <- all :: d in ds || (fresh(d) && d.dependencies == [])
    ensures Elements(Keys(RefsOf(all))) == old(Elements(Keys(RefsOf(ds))) + Elements(Keys(dependsOn)))
    ensures old(WeaklySorted(KeyLess, Keys(RefsOf(ds)))) ==> WeaklySorted(KeyLess, Keys(RefsOf(all)))
    ensures old(AllFlat(ds)) ==>
              AllFlat(all) &&
              (Distinct(Keys(RefsOf(all))) <==>
               old(Distinct(Keys(RefsOf(ds))) && MissedIn(ds, hashed, Keys(dependsOn)) == {}))
    ensures old(MissedIn(ds, hashed, Keys(RefsOf(ds)))) == {} ==> MissedIn(all, hashes, Keys(RefsOf(all))) == {}
  {
    ghost var ks, ms := Keys(dependsOn), MembersOf(ds, hashed);
    MembersAre(ds, hashed, ks);
    MembersAre(ds, hashed, KeysOf(ms));
    all, hashes := AddAllFlat(ds, hashed, dependsOn);
    ghost var ns := MembersOf(all, hashes);
    assert MembersOf(ds, hashed) == ms && Keys(dependsOn) == ks;
    AddMembersUpdates(ms, ks);
    MembersAre(all, hashes, KeysOf(ns));
    SettledIsForAll(ms);
    SettledIsForAll(ns);
  }

  lemma AddMembersOneMore(ms: seq<Member>, ks: seq<RefKey>, i: nat)
    requires i < |ks|
    ensures AddMembers(ms, ks[..i + 1]) == AddMember(AddMembers(ms, ks[..i]), ks[i])
  {
    assert ks[..i + 1][..i] == ks[..i];
  }

  lemma AddAllOneMore(ks: seq<RefKey>, added: seq<RefKey>, i: nat)
    requires i < |added|
    ensures AddAll(KeyLess, ks, added[..i + 1]) == Add(KeyLess, AddAll(KeyLess, ks, added[..i]), added[i])
    ensures Elements(added[..i + 1]) == Elements(added[..i]) + {added[i]}
  {
    assert added[..i + 1] == added[..i] + [added[i]];
    assert added[..i + 1][..i] == added[..i];
  }

  function RefsOf(ds: seq<Dependency>): (refs: seq<BomRef>)
    ensures |refs| == |ds|
    ensures forall i :: 0 <= i < |ds| ==> refs[i] == ds[i].ref
  {
    seq(|ds|, i requires 0 <= i < |ds| => ds[i].ref)
  }

  predicate AllFlat(ds: seq<Dependency>)
    reads ds
  {
    forall d <- ds :: d.dependencies == []
  }

  // Where a new entry without dependencies goes: before the first entry that is greater.
  function PlaceFor(ds: seq<Dependency>, r: BomRef): (i: nat)
    reads r, RefsOf(ds)
    ensures i <= |ds|
    ensures forall j :: 0 <= j < i ==> !ds[j].GreaterThanFlat(r)
    ensures i < |ds| ==> ds[i].GreaterThanFlat(r)
  {
    if ds == [] then 0
    else
      assert RefsOf(ds)[0] == ds[0].ref && RefsOf(ds[1..]) == RefsOf(ds)[1..];
      if ds[0].GreaterThanFlat(r) then 0 else 1 + PlaceFor(ds[1..], r)
  }

  // `add` on a sorted set of entries, given a new entry without dependencies. An equal entry is found
  // only under the hash of the new one.
  method AddFlat(ds: seq<Dependency>, hashed: map<Dependency, RefKey>, r: BomRef)
    returns (all: seq<Dependency>, hashes: map<Dependency, RefKey>)
    ensures forall d <- all :: d in ds || (fresh(d) && d.ref == r && d.dependencies == [])
    ensures MembersOf(all, hashes) == AddMember(MembersOf(ds, hashed), r.Key())
  {
    FoundIff(ds, hashed, r);
    if exists d <- ds :: d.EqualsFlat(r) && d in hashed && hashed[d] == r.Key() {
      all, hashes := ds, hashed;
    } else {
      var d := new Dependency(r);
      var i := PlaceFor(ds, r);
      all, hashes := ds[..i] + [d] + ds[i..], hashed[d := r.Key()];
      PlaceOfFlat(ds, hashed, r, i);
      MembersOfInsert(ds, hashed, d, i);
    }
  }

  lemma FoundIff(ds: seq<Dependency>, hashed: map<Dependency, RefKey>, r: BomRef)
    ensures (exists d <- ds :: d.EqualsFlat(r) && d in hashed && hashed[d] == r.Key()) <==>
            NewMember(r.Key()) in MembersOf(ds, hashed)
  {
    var ms := MembersOf(ds, hashed);
    forall i | 0 <= i < |ds|
      ensures ds[i] in ds && ms[i] in ms
      ensures ms[i] == NewMember(r.Key()) <==> ds[i].EqualsFlat(r) && ds[i] in hashed && hashed[ds[i]] == r.Key()
    {
      r.KeyCharacterizes(ds[i].ref);
    }
  }

  lemma MembersOfInsert(ds: seq<Dependency>, hashed: map<Dependency, RefKey>, d: Dependency, i: nat)
    requires i <= |ds| && d !in ds && d.dependencies == []
    ensures var ms := MembersOf(ds, hashed);
            MembersOf(ds[..i] + [d] + ds[i..], hashed[d := d.ref.Key()]) ==
            ms[..i] + [NewMember(d.ref.Key())] + ms[i..]
  {
  }

  lemma PlaceOfFlat(ds: seq<Dependency>, hashed: map<Dependency, RefKey>, r: BomRef, i: nat)
    requires i <= |ds|
    requires forall j :: 0 <= j < i ==> !ds[j].GreaterThanFlat(r)
    requires i < |ds| ==> ds[i].GreaterThanFlat(r)
    ensures var ms := MembersOf(ds, hashed);
            InsertRight(MemberLess, ms, NewMember(r.Key())) == ms[..i] + [NewMember(r.Key())] + ms[i..]
  {
    var ms := MembersOf(ds, hashed);
    forall j | 0 <= j < |ds| ensures ds[j].GreaterThanFlat(r) <==> MemberLess(NewMember(r.Key()), ms[j]) {
      r.KeyCharacterizes(ds[j].ref);
      KeyLessIrreflexive(r.Key());
    }
    InsertRightAt(MemberLess, ms, NewMember(r.Key()), i);
  }

  // A ref that gets its value after it was added is not found when it is added again, and is listed
  // more than once.
  method AddRenamedAgain(r: BomRef, name: Name) returns (d: Dependency)
    requires r.value.None?
    modifies r
    ensures Elements(Keys(RefsOf(d.dependencies))) == {Named(name)} && !Distinct(Keys(RefsOf(d.dependencies)))
  {
    ghost var n;
    d, n := AddUnnamed(r);
    r.SetValue(Some(name));
    assert Keys([r]) == [Named(name)] == Keys(RefsOf(d.dependencies));
    assert n in d.Missed([Named(name)]);
    d.Update([r]);
  }

  method AddUnnamed(r: BomRef) returns (d: Dependency, ghost n: Dependency)
    requires r.value.None?
    ensures fresh(d) && d.dependencies == [n] && n.dependencies == []
    ensures n.ref.Key() == Anonymous(r) && n in d.hashed && d.hashed[n] == Anonymous(r)
  {
    d := new Dependency(r);
    assert Keys(RefsOf(d.dependencies)) == [] && Keys([r]) == [Anonymous(r)];
    d.Update([r]);
    n := OnlyEntry(d, Anonymous(r));
  }

  // An entry with dependencies of one key, which are all found, has one.
  lemma OnlyEntry(d: Dependency, k: RefKey) returns (n: Dependency)
    requires Elements(Keys(RefsOf(d.dependencies))) == {k} && Distinct(Keys(RefsOf(d.dependencies))) && d.FindsAll()
    ensures d.dependencies == [n] && n.ref.Key() == k && n in d.hashed && d.hashed[n] == k
  {
    var ds, ks := d.dependencies, Keys(RefsOf(d.dependencies));
    OnlyElement(ks, k);
    n := ds[0];
    assert n in ds && n.ref.Key() == ks[0];
    assert n !in d.Missed(ks);
  }

  // The two shortcuts above are what the general comparison says of an entry without
  // dependencies, whatever entry it meets.
  lemma FlatComparison(k: RefKey, l: RefKey, nested: seq<Value>)
    requires forall v <- nested :: v != Nothing
    ensures var flat := Object(Other("Dependency"), [Ref(k), Tuple([])]);
            var other := Object(Other("Dependency"), [Ref(l), Tuple(nested)]);
            (flat == other <==> k == l && nested == []) &&
            Less(flat, other) == Decide(k != l && KeyLess(k, l))
  {
    var x, y := [Ref(k), Tuple([])], [Ref(l), Tuple(nested)];
    if k == l {
      assert LessItems(x, y) == LessItems(Tail(x), Tail(y));
      if nested != [] {
        assert nested[0] in nested;
        assert LessItems(Tail(x), Tail(y)) == Less(Tuple([]), Tuple(nested)) == LessItems([], nested);
      } else {
        LessItemsIrreflexive(x);
      }
    } else {
      assert LessItems(x, y) == Less(Ref(k), Ref(l));
    }
  }

  // ---------- the top level ----------

  /** An entry by its ref objects, which stay the same while their values change. */
  datatype RefEntry = RefEntry(ref: BomRef, targets: seq<BomRef>)

  function EntriesOf(ds: seq<Dependency>): (es: seq<RefEntry>)
    reads ds
    ensures |es| == |ds|
    ensures forall i :: 0 <= i < |ds| ==> es[i] == RefEntry(ds[i].ref, RefsOf(ds[i].dependencies))
  {
    seq(|ds|, i requires 0 <= i < |ds| reads ds => RefEntry(ds[i].ref, RefsOf(ds[i].dependencies)))
  }

  function RefsIn(es: seq<RefEntry>): set<BomRef> {
    (set e <- es :: e.ref) + (set e <- es, t <- e.targets :: t)
  }

  // The graph that the entries stand for under the present values of their refs.
  function Keyed(es: seq<RefEntry>): (g: seq<Entry>)
    reads RefsIn(es)
    ensures |g| == |es|
    ensures forall i :: 0 <= i < |es| ==> g[i].ref == es[i].ref.Key() && g[i].targets == Keys(es[i].targets)
  {
    seq(|es|, i requires 0 <= i < |es| reads RefsIn(es) =>
      assert es[i] in es && (forall t <- es[i].targets :: t in RefsIn(es)); Entry(es[i].ref.Key(), Keys(es[i].targets)))
  }

  // The same under recorded values.
  function KeysIn(st: Store, refs: seq<BomRef>): (keys: seq<RefKey>)
    ensures |keys| == |refs|
    ensures forall i :: 0 <= i < |refs| ==> keys[i] == KeyIn(st, refs[i])
  {
    seq(|refs|, i requires 0 <= i < |refs| => KeyIn(st, refs[i]))
  }

  function KeyedIn(st: Store, es: seq<RefEntry>): (g: seq<Entry>)
    ensures |g| == |es|
    ensures forall i :: 0 <= i < |es| ==> g[i] == Entry(KeyIn(st, es[i].ref), KeysIn(st, es[i].targets))
  {
    seq(|es|, i requires 0 <= i < |es| => Entry(KeyIn(st, es[i].ref), KeysIn(st, es[i].targets)))
  }

  lemma KeyedIsKeyedIn(es: seq<RefEntry>, st: Store)
    requires forall r <- RefsIn(es) :: r.value == ValueIn(st, r)
    ensures Keyed(es) == KeyedIn(st, es)
  {
    forall i | 0 <= i < |es| ensures Keyed(es)[i] == KeyedIn(st, es)[i] {
      assert es[i] in es && forall t <- es[i].targets :: t in RefsIn(es);
      assert Keys(es[i].targets) == KeysIn(st, es[i].targets);
    }
  }
}
