/** What discrimination does to refs held elsewhere, such as those of the dependency graph. */
module Resolution {
  import opened BomRefs
  import opened Discrimination

  // `g` equals some listed ref, as every ref of a validated dependency graph does.
  ghost predicate Resolves(st: Store, refs: seq<BomRef>, g: BomRef) {
    exists w <- refs :: KeyIn(st, w) == KeyIn(st, g)
  }

  // The first place of the list that holds a value.
  ghost predicate FirstHolder(st: Store, refs: seq<BomRef>, i: nat, v: Option<Name>) {
    i < |refs| && ValueIn(st, refs[i]) == v && forall j :: 0 <= j < i ==> ValueIn(st, refs[j]) != v
  }

  ghost predicate ListedOnce(refs: seq<BomRef>, i: nat) {
    i < |refs| && forall j :: 0 <= j < |refs| && refs[j] == refs[i] ==> j == i
  }

  lemma {:induction false} FirstHolderExists(st: Store, refs: seq<BomRef>, m: nat) returns (i: nat)
    requires m < |refs|
    ensures i <= m && FirstHolder(st, refs, i, ValueIn(st, refs[m]))
  {
    if j :| 0 <= j < m && ValueIn(st, refs[j]) == ValueIn(st, refs[m]) {
      i := FirstHolderExists(st, refs, j);
    } else {
      i := m;
    }
  }

  // A value that a listed ref started with is afterwards held only by those who had it before.
  lemma OldValuesAreNotDrawn(st: Store, refs: seq<BomRef>, draw: nat -> Name, first: nat, w: BomRef, r: BomRef)
    requires GoodSupply(st, refs, draw) && w in refs
    requires ValueIn(st, w).Some?
    requires ValueIn(Discriminated(st, refs, draw, first).store, r) == ValueIn(st, w)
    ensures ValueIn(st, r) == ValueIn(st, w)
  {
    ChangedAreDrawn(st, refs, draw, first, r);
  }

  // An unlisted ref that meant a listed one still does exactly if the first holder of its value
  // is not listed a second time; and never does it mean two listed refs at once.
  lemma ResolutionAfter(st: Store, refs: seq<BomRef>, draw: nat -> Name, first: nat, g: BomRef)
    requires GoodSupply(st, refs, draw) && Resolves(st, refs, g)
    ensures var after := Discriminated(st, refs, draw, first).store;
            && (Resolves(after, refs, g) <==>
                g in refs || forall i :: FirstHolder(st, refs, i, ValueIn(st, g)) ==> ListedOnce(refs, i))
            && (forall v <- refs, w <- refs :: KeyIn(after, v) == KeyIn(after, g) == KeyIn(after, w) ==> v == w)
  {
    var after := Discriminated(st, refs, draw, first).store;
    GoodSupplyIsFresh(st, refs, draw, first);
    FreshDrawsTellApart(st, refs, draw, first);
    AllAreNamed(st, refs, draw, first);
    OthersAreUntouched(st, refs, draw, first);
    forall v <- refs, w <- refs ensures KeyIn(after, v) == KeyIn(after, w) ==> v == w {
      assert ValueIn(after, v).Some? && ValueIn(after, w).Some?;
    }
    if g !in refs {
      var w :| w in refs && KeyIn(st, w) == KeyIn(st, g);
      assert ValueIn(st, w) == ValueIn(st, g) == ValueIn(after, g) && ValueIn(st, g).Some?;
      var m :| 0 <= m < |refs| && refs[m] == w;
      var i := FirstHolderExists(st, refs, m);
      KeptIffFirstHolder(st, refs, draw, first, i);
      assert forall j :: FirstHolder(st, refs, j, ValueIn(st, g)) ==> j == i;
      assert ListedOnce(refs, i) <==> Keeps(st, refs, i);
      if Keeps(st, refs, i) {
        assert refs[i] in refs && KeyIn(after, refs[i]) == KeyIn(after, g);
      }
      if Resolves(after, refs, g) {
        var x :| x in refs && KeyIn(after, x) == KeyIn(after, g);
        OldValuesAreNotDrawn(st, refs, draw, first, w, x);
        var n :| 0 <= n < |refs| && refs[n] == x;
        KeptIffFirstHolder(st, refs, draw, first, n);
        assert n == i;
      }
    }
  }

  // Of two equal refs, discrimination separates exactly those of which one is renamed alone;
  // refs that differ stay different.
  lemma EqualityAfter(st: Store, refs: seq<BomRef>, draw: nat -> Name, first: nat, a: BomRef, b: BomRef)
    requires GoodSupply(st, refs, draw) && Resolves(st, refs, a) && Resolves(st, refs, b)
    ensures var after := Discriminated(st, refs, draw, first).store;
            KeyIn(after, a) == KeyIn(after, b) <==>
            a == b || (KeyIn(st, a) == KeyIn(st, b) && ValueIn(after, a) == ValueIn(st, a)
                       && ValueIn(after, b) == ValueIn(st, b))
  {
    var after := Discriminated(st, refs, draw, first).store;
    OthersAreUntouched(st, refs, draw, first);
    if a != b && KeyIn(after, a) == KeyIn(after, b) {
      var v :| v in refs && KeyIn(st, v) == KeyIn(st, a);
      var w :| w in refs && KeyIn(st, w) == KeyIn(st, b);
      AfterIsNamed(st, refs, draw, first, a);
      if a in refs && b in refs {
        GoodSupplyIsFresh(st, refs, draw, first);
        FreshDrawsTellApart(st, refs, draw, first);
      } else if a !in refs {
        assert ValueIn(after, a) == ValueIn(st, a) == ValueIn(st, v);
        OldValuesAreNotDrawn(st, refs, draw, first, v, b);
      } else {
        assert ValueIn(after, b) == ValueIn(st, b) == ValueIn(st, w);
        OldValuesAreNotDrawn(st, refs, draw, first, w, a);
      }
    }
  }

  lemma AfterIsNamed(st: Store, refs: seq<BomRef>, draw: nat -> Name, first: nat, g: BomRef)
    requires Resolves(st, refs, g)
    ensures ValueIn(Discriminated(st, refs, draw, first).store, g).Some?
  {
    AllAreNamed(st, refs, draw, first);
    OthersAreUntouched(st, refs, draw, first);
  }

  // Not listed, or listed once and first with its value.
  ghost predicate StaysPut(st: Store, refs: seq<BomRef>, r: BomRef) {
    r !in refs || exists i :: 0 <= i < |refs| && refs[i] == r && Keeps(st, refs, i)
  }

  lemma ValueIsKeptIff(st: Store, refs: seq<BomRef>, draw: nat -> Name, first: nat, r: BomRef)
    requires GoodSupply(st, refs, draw)
    ensures ValueIn(Discriminated(st, refs, draw, first).store, r) == ValueIn(st, r) <==> StaysPut(st, refs, r)
  {
    OthersAreUntouched(st, refs, draw, first);
    if r in refs {
      var m :| 0 <= m < |refs| && refs[m] == r;
      forall i | 0 <= i < |refs| && refs[i] == r
        ensures Keeps(st, refs, i) <==> ValueIn(Discriminated(st, refs, draw, first).store, r) == ValueIn(st, r)
      {
        KeptIffFirstHolder(st, refs, draw, first, i);
      }
    }
  }

  // Two refs are as equal or different as they were.
  predicate SameBetween(st: Store, after: Store, a: BomRef, b: BomRef) {
    KeyIn(after, a) == KeyIn(after, b) <==> KeyIn(st, a) == KeyIn(st, b)
  }

  // Two refs are one object, or different, or neither has to move.
  ghost predicate NeedNotPart(st: Store, refs: seq<BomRef>, a: BomRef, b: BomRef) {
    a != b && KeyIn(st, a) == KeyIn(st, b) ==> StaysPut(st, refs, a) && StaysPut(st, refs, b)
  }

  // Discrimination keeps two refs that mean listed ones equal or different, as they were, exactly if
  // neither of two equal ones has to move.
  lemma EqualityIsPreservedIff(st: Store, refs: seq<BomRef>, draw: nat -> Name, first: nat, a: BomRef, b: BomRef)
    requires GoodSupply(st, refs, draw) && Resolves(st, refs, a) && Resolves(st, refs, b)
    ensures SameBetween(st, Discriminated(st, refs, draw, first).store, a, b) <==> NeedNotPart(st, refs, a, b)
  {
    EqualityAfter(st, refs, draw, first, a, b);
    ValueIsKeptIff(st, refs, draw, first, a);
    ValueIsKeptIff(st, refs, draw, first, b);
  }

  // No two listed refs have a value in common.
  ghost predicate NoSharing(st: Store, refs: seq<BomRef>) {
    forall v <- refs, w <- refs :: v != w && ValueIn(st, v).Some? ==> ValueIn(st, v) != ValueIn(st, w)
  }

  lemma UnsharedStaysPut(st: Store, refs: seq<BomRef>, r: BomRef)
    requires NoRepeats(refs) && NoSharing(st, refs) && ValueIn(st, r).Some?
    ensures StaysPut(st, refs, r)
  {
    if r in refs {
      var i :| 0 <= i < |refs| && refs[i] == r;
      assert forall j :: 0 <= j < i ==> refs[j] in refs && refs[j] != r;
      assert Keeps(st, refs, i);
    }
  }

  // So without repeats and shared values the graph refs are equal and different after as before.
  lemma EqualityIsPreserved(st: Store, refs: seq<BomRef>, draw: nat -> Name, first: nat, a: BomRef, b: BomRef)
    requires GoodSupply(st, refs, draw) && Resolves(st, refs, a) && Resolves(st, refs, b)
    requires NoRepeats(refs) && NoSharing(st, refs)
    ensures var after := Discriminated(st, refs, draw, first).store;
            KeyIn(after, a) == KeyIn(after, b) <==> KeyIn(st, a) == KeyIn(st, b)
  {
    EqualityIsPreservedIff(st, refs, draw, first, a, b);
    if a != b && KeyIn(st, a) == KeyIn(st, b) {
      UnsharedStaysPut(st, refs, a);
      UnsharedStaysPut(st, refs, b);
    }
  }

  // One object listed twice takes its value away from an equal ref held elsewhere.
  lemma RepeatedRefBreaksResolution(a: BomRef, g: BomRef, draw: nat -> Name)
    requires a != g
    requires forall i: nat, j: nat :: i < j ==> draw(i) != draw(j)
    requires forall i: nat :: draw(i) != "a"
    ensures var st: Store := map[a := Some("a"), g := Some("a")];
            Resolves(st, [a, a], g) && !Resolves(Discriminated(st, [a, a], draw, 0).store, [a, a], g)
  {
    var st: Store := map[a := Some("a"), g := Some("a")];
    var refs := [a, a];
    assert refs[0] in refs && KeyIn(st, a) == KeyIn(st, g);
    assert FirstHolder(st, refs, 0, ValueIn(st, g)) && !ListedOnce(refs, 0) by {
      assert refs[1] == refs[0];
    }
    ResolutionAfter(st, refs, draw, 0, g);
  }
}
