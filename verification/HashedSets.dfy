/**
 * Sorted sets of dependency entries as `SortedSet` keeps them: beside the listing a hash table, in
 * which a member stays under the hash it had when it was added, whatever its ref becomes.
 */
module HashedSets {
  import opened BomRefs
  import opened Graph
  import opened SortedSets

  // A member by the key of its ref now, the key under which it was hashed if it was added without
  // dependencies, and whether it has none now.
  datatype Member = Member(key: RefKey, hash: Option<RefKey>, flat: bool)

  function KeysOf(ms: seq<Member>): (keys: seq<RefKey>)
    ensures |keys| == |ms| && forall i :: 0 <= i < |ms| ==> keys[i] == ms[i].key
  {
    seq(|ms|, i requires 0 <= i < |ms| => ms[i].key)
  }

  function NewMember(k: RefKey): Member {
    Member(k, Some(k), true)
  }

  predicate MemberLess(m: Member, n: Member) {
    KeyLess(m.key, n.key)
  }

  // `add` of a new entry without dependencies: only a member under its hash can be found equal.
  function AddMember(ms: seq<Member>, k: RefKey): seq<Member> {
    if NewMember(k) in ms then ms else InsertRight(MemberLess, ms, NewMember(k))
  }

  function AddMembers(ms: seq<Member>, ks: seq<RefKey>): seq<Member> {
    if ks == [] then ms else AddMember(AddMembers(ms, ks[..|ks| - 1]), ks[|ks| - 1])
  }

  predicate AllFlatMembers(ms: seq<Member>) {
    forall m <- ms :: m.flat
  }

  // Members with one of the keys are hashed by the key they have now.
  predicate SettledFor(ms: seq<Member>, ks: seq<RefKey>) {
    forall m <- ms :: m.key in ks ==> m.hash == Some(m.key)
  }

  predicate Settled(ms: seq<Member>) {
    forall m <- ms :: m.hash == Some(m.key)
  }

  // What a set promises of an update, which may list it anew: which keys it has, that they are in
  // order, and that they are once each exactly if they were and what is added again was found.
  ghost predicate Updates(ms: seq<Member>, all: seq<Member>, ks: seq<RefKey>) {
    Elements(KeysOf(all)) == Elements(KeysOf(ms)) + Elements(ks) &&
    (WeaklySorted(KeyLess, KeysOf(ms)) ==> WeaklySorted(KeyLess, KeysOf(all))) &&
    (AllFlatMembers(ms) ==>
       AllFlatMembers(all) && (Distinct(KeysOf(all)) <==> Distinct(KeysOf(ms)) && SettledFor(ms, ks))) &&
    (Settled(ms) ==> Settled(all))
  }

  lemma {:induction false} KeysOfInsertRight(ms: seq<Member>, m: Member)
    ensures KeysOf(InsertRight(MemberLess, ms, m)) == InsertRight(KeyLess, KeysOf(ms), m.key)
  {
    if ms != [] {
      assert KeysOf(ms) == [ms[0].key] + KeysOf(ms[1..]);
      if !MemberLess(m, ms[0]) {
        KeysOfInsertRight(ms[1..], m);
      }
    }
  }

  lemma KeyIsListed(ms: seq<Member>, k: RefKey)
    ensures k in KeysOf(ms) <==> exists m <- ms :: m.key == k
  {
    if k in KeysOf(ms) {
      var i :| 0 <= i < |ms| && KeysOf(ms)[i] == k;
      assert ms[i] in ms;
    }
    if m :| m in ms && m.key == k {
      var i :| 0 <= i < |ms| && ms[i] == m;
      assert KeysOf(ms)[i] == k;
    }
  }

  // If keys are once each, whatever has the key of a member is that member.
  lemma DistinctKeysMember(ms: seq<Member>, k: RefKey)
    requires Distinct(KeysOf(ms)) && NewMember(k) in ms
    ensures SettledFor(ms, [k])
  {
    var i :| 0 <= i < |ms| && ms[i] == NewMember(k);
    forall m <- ms | m.key == k ensures m == ms[i] {
      var j :| 0 <= j < |ms| && ms[j] == m;
      assert KeysOf(ms)[i] == KeysOf(ms)[j];
    }
  }

  lemma InAddMember(ms: seq<Member>, k: RefKey, m: Member)
    ensures m in AddMember(ms, k) <==> m in ms || m == NewMember(k)
  {
    InsertRightElementSet(MemberLess, ms, NewMember(k));
    assert m in Elements(ms) <==> m in ms;
    assert m in Elements(AddMember(ms, k)) <==> m in AddMember(ms, k);
  }

  lemma SettledIsForAll(ms: seq<Member>)
    ensures Settled(ms) <==> SettledFor(ms, KeysOf(ms))
  {
    forall m <- ms ensures m.key in KeysOf(ms) {
      KeyIsListed(ms, m.key);
    }
  }

  lemma FoundUpdates(ms: seq<Member>, k: RefKey)
    requires NewMember(k) in ms
    ensures Updates(ms, ms, [k])
  {
    KeyIsListed(ms, k);
    assert Elements(KeysOf(ms)) == Elements(KeysOf(ms)) + Elements([k]);
    if Distinct(KeysOf(ms)) {
      DistinctKeysMember(ms, k);
    }
  }

  lemma AddMemberUpdates(ms: seq<Member>, k: RefKey)
    ensures Updates(ms, AddMember(ms, k), [k])
  {
    if NewMember(k) in ms {
      FoundUpdates(ms, k);
    } else {
      var listed, all := KeysOf(ms), AddMember(ms, k);
      KeysOfInsertRight(ms, NewMember(k));
      assert KeysOf(all) == InsertRight(KeyLess, listed, k);
      assert Elements([k]) == {k};
      InsertRightElementSet(KeyLess, listed, k);
      NotFoundIsDistinctIff(ms, k);
      KeyLessIsWeak(Elements(listed) + {k});
      if WeaklySorted(KeyLess, listed) {
        InsertRightSorted(KeyLess, listed, k);
      }
      forall m <- all ensures m in ms || m == NewMember(k) {
        InAddMember(ms, k, m);
      }
    }
  }

  lemma NotFoundIsDistinctIff(ms: seq<Member>, k: RefKey)
    requires NewMember(k) !in ms
    ensures AllFlatMembers(ms) ==>
              (Distinct(InsertRight(KeyLess, KeysOf(ms), k)) <==> Distinct(KeysOf(ms)) && SettledFor(ms, [k]))
  {
    InsertRightDistinctIff(KeyLess, KeysOf(ms), k);
    KeyIsListed(ms, k);
    forall m <- ms | m.key == k && m.flat ensures m.hash != Some(k) {
      assert m == Member(k, m.hash, true);
    }
  }

  // What is found in the grown set is what was found before, or was just added.
  lemma SettledForOneMore(ms: seq<Member>, ks: seq<RefKey>, k: RefKey)
    ensures SettledFor(ms, ks) && SettledFor(AddMembers(ms, ks), [k]) <==> SettledFor(ms, ks + [k])
  {
    forall m <- AddMembers(ms, ks) ensures m in ms || m.hash == Some(m.key) {
      NewMembersAreSettled(ms, ks, m);
    }
    forall m <- ms ensures m in AddMembers(ms, ks) {
      MembersStay(ms, ks, m);
    }
  }

  lemma {:induction false} NewMembersAreSettled(ms: seq<Member>, ks: seq<RefKey>, m: Member)
    requires m in AddMembers(ms, ks)
    ensures m in ms || m.hash == Some(m.key)
  {
    if ks != [] {
      var front, k := ks[..|ks| - 1], ks[|ks| - 1];
      InAddMember(AddMembers(ms, front), k, m);
      if m in AddMembers(ms, front) {
        NewMembersAreSettled(ms, front, m);
      }
    }
  }

  lemma {:induction false} MembersStay(ms: seq<Member>, ks: seq<RefKey>, m: Member)
    requires m in ms
    ensures m in AddMembers(ms, ks)
  {
    if ks != [] {
      var front, k := ks[..|ks| - 1], ks[|ks| - 1];
      MembersStay(ms, front, m);
      InAddMember(AddMembers(ms, front), k, m);
    }
  }

  lemma {:induction false} AddMembersUpdates(ms: seq<Member>, ks: seq<RefKey>)
    ensures Updates(ms, AddMembers(ms, ks), ks)
  {
    if ks != [] {
      var front, k := ks[..|ks| - 1], ks[|ks| - 1];
      assert ks == front + [k];
      AddMembersUpdates(ms, front);
      AddMemberUpdates(AddMembers(ms, front), k);
      SettledForOneMore(ms, front, k);
      ElementsOfConcat(front, [k]);
    }
  }

  // A set whose members are all found is a sorted set of its keys.
  lemma SettledAdds(ms: seq<Member>, k: RefKey)
    requires Settled(ms) && AllFlatMembers(ms)
    ensures KeysOf(AddMember(ms, k)) == Add(KeyLess, KeysOf(ms), k)
    ensures Settled(AddMember(ms, k)) && AllFlatMembers(AddMember(ms, k))
  {
    KeyIsListed(ms, k);
    AddMemberUpdates(ms, k);
    KeysOfInsertRight(ms, NewMember(k));
  }

  // A ref that came to have a value after it was added is not found: it is listed a second time.
  lemma RenamedIsListedTwice(r: BomRef, name: Name)
    ensures var stale := Member(Named(name), Some(Anonymous(r)), true);
            KeysOf(AddMembers([stale], [Named(name)])) == [Named(name), Named(name)]
  {
    var stale := Member(Named(name), Some(Anonymous(r)), true);
    KeyLessIrreflexive(Named(name));
    assert [Named(name)][..0] == [] && AddMembers([stale], []) == [stale];
    assert InsertRight(MemberLess, [stale], NewMember(Named(name))) == [stale] + [NewMember(Named(name))];
  }
}
