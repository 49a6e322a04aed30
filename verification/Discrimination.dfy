/**
 * Giving every bom-ref of a BOM a value of its own while a document is written, as a function of
 * the values before, the list of refs (in which an object may recur) and the names drawn.
 */
module Discrimination {
  import opened BomRefs

  // The values so far, the values seen so far, and how many names have been drawn.
  datatype Run = Run(store: Store, known: seq<Name>, drawn: nat)

  predicate Renames(run: Run, r: BomRef) {
    var v := ValueIn(run.store, r);
    v.None? || v.value in run.known
  }

  function Step(run: Run, r: BomRef, draw: nat -> Name): Run {
    if Renames(run, r) then
      var name := draw(run.drawn);
      Run(run.store[r := Some(name)], run.known + [name], run.drawn + 1)
    else
      run.(known := run.known + [ValueIn(run.store, r).value])
  }

  /** `discriminate` on a list of refs, where `first` names have been drawn before. */
  function Discriminated(st: Store, refs: seq<BomRef>, draw: nat -> Name, first: nat): Run {
    if refs == [] then Run(st, [], first)
    else Step(Discriminated(st, refs[..|refs| - 1], draw, first), refs[|refs| - 1], draw)
  }

  // ---------- what holds whatever names are drawn ----------

  lemma {:induction false} AllAreNamed(st: Store, refs: seq<BomRef>, draw: nat -> Name, first: nat)
    ensures var run := Discriminated(st, refs, draw, first);
            forall r <- refs :: ValueIn(run.store, r).Some? && ValueIn(run.store, r).value in run.known
  {
    if refs != [] {
      assert refs == refs[..|refs| - 1] + [refs[|refs| - 1]];
      AllAreNamed(st, refs[..|refs| - 1], draw, first);
    }
  }

  lemma {:induction false} OthersAreUntouched(st: Store, refs: seq<BomRef>, draw: nat -> Name, first: nat)
    ensures forall r :: r !in refs ==> ValueIn(Discriminated(st, refs, draw, first).store, r) == ValueIn(st, r)
  {
    if refs != [] {
      OthersAreUntouched(st, refs[..|refs| - 1], draw, first);
    }
  }

  // ---------- distinctness ----------

  // Each name drawn differs from all values seen before it.
  ghost predicate FreshDraws(st: Store, refs: seq<BomRef>, draw: nat -> Name, first: nat) {
    refs == [] ||
    var before := Discriminated(st, refs[..|refs| - 1], draw, first);
    FreshDraws(st, refs[..|refs| - 1], draw, first) &&
    (Renames(before, refs[|refs| - 1]) ==> draw(before.drawn) !in before.known)
  }

  // Different objects hold different values.
  ghost predicate ToldApart(st: Store, refs: seq<BomRef>) {
    forall r <- refs, s <- refs :: r != s ==> ValueIn(st, r) != ValueIn(st, s)
  }

  ghost predicate NoRepeats(refs: seq<BomRef>) {
    forall i, j :: 0 <= i < j < |refs| ==> refs[i] != refs[j]
  }

  lemma {:induction false} FreshDrawsTellApart(st: Store, refs: seq<BomRef>, draw: nat -> Name, first: nat)
    requires FreshDraws(st, refs, draw, first)
    ensures ToldApart(Discriminated(st, refs, draw, first).store, refs)
  {
    if refs != [] {
      var front, last := refs[..|refs| - 1], refs[|refs| - 1];
      assert refs == front + [last];
      FreshDrawsTellApart(st, front, draw, first);
      AllAreNamed(st, front, draw, first);
    }
  }

  lemma {:induction false} KnownValuesAreHeld(st: Store, refs: seq<BomRef>, draw: nat -> Name, first: nat)
    requires NoRepeats(refs)
    ensures var run := Discriminated(st, refs, draw, first);
            forall x <- run.known :: exists r <- refs :: ValueIn(run.store, r) == Some(x)
  {
    if refs != [] {
      var front, last := refs[..|refs| - 1], refs[|refs| - 1];
      assert refs == front + [last];
      KnownValuesAreHeld(st, front, draw, first);
      var before, run := Discriminated(st, front, draw, first), Discriminated(st, refs, draw, first);
      forall x <- run.known ensures exists r <- refs :: ValueIn(run.store, r) == Some(x) {
        if x in before.known {
          var r :| r in front && ValueIn(before.store, r) == Some(x);
          assert r in refs && ValueIn(run.store, r) == Some(x);
        } else {
          assert last in refs && ValueIn(run.store, last) == Some(x);
        }
      }
    }
  }

  // A later step leaves earlier objects alone, and a stale name makes it collide with one of them.
  lemma LastStepTellsApart(st: Store, refs: seq<BomRef>, draw: nat -> Name, first: nat)
    requires refs != [] && NoRepeats(refs)
    requires ToldApart(Discriminated(st, refs, draw, first).store, refs)
    ensures var before := Discriminated(st, refs[..|refs| - 1], draw, first);
            ToldApart(before.store, refs[..|refs| - 1]) &&
            (Renames(before, refs[|refs| - 1]) ==> draw(before.drawn) !in before.known)
  {
    var front, last := refs[..|refs| - 1], refs[|refs| - 1];
    var before, run := Discriminated(st, front, draw, first), Discriminated(st, refs, draw, first);
    assert refs == front + [last];
    forall r <- front ensures r in refs && r != last && ValueIn(run.store, r) == ValueIn(before.store, r) {
    }
    KnownValuesAreHeld(st, front, draw, first);
    if Renames(before, last) {
      assert last in refs && ValueIn(run.store, last) == Some(draw(before.drawn));
    }
  }

  // On a list without repeats, fresh draws are exactly what it takes.
  lemma {:induction false} ToldApartIffFreshDraws(st: Store, refs: seq<BomRef>, draw: nat -> Name, first: nat)
    requires NoRepeats(refs)
    ensures ToldApart(Discriminated(st, refs, draw, first).store, refs) <==> FreshDraws(st, refs, draw, first)
  {
    if FreshDraws(st, refs, draw, first) {
      FreshDrawsTellApart(st, refs, draw, first);
    }
    if refs != [] && ToldApart(Discriminated(st, refs, draw, first).store, refs) {
      LastStepTellsApart(st, refs, draw, first);
      ToldApartIffFreshDraws(st, refs[..|refs| - 1], draw, first);
    }
  }

  // ---------- which refs keep their value ----------

  // Names that are never drawn twice and never met as a value before.
  ghost predicate GoodSupply(st: Store, refs: seq<BomRef>, draw: nat -> Name) {
    (forall i: nat, j: nat :: i < j ==> draw(i) != draw(j)) &&
    forall i: nat, r <- refs :: ValueIn(st, r) != Some(draw(i))
  }

  // The first place that holds its value, of an object that has no other place in the list.
  ghost predicate Keeps(st: Store, refs: seq<BomRef>, i: nat)
    requires i < |refs|
  {
    ValueIn(st, refs[i]).Some? &&
    (forall j :: 0 <= j < |refs| && refs[j] == refs[i] ==> j == i) &&
    (forall j :: 0 <= j < i ==> ValueIn(st, refs[j]) != ValueIn(st, refs[i]))
  }

  // A value seen so far is a value some listed ref started with, or a name drawn.
  ghost predicate KnownIs(st: Store, refs: seq<BomRef>, draw: nat -> Name, first: nat, run: Run) {
    run.drawn >= first &&
    (forall x <- run.known :: (exists r <- refs :: ValueIn(st, r) == Some(x))
                           || (exists k: nat :: k < run.drawn && x == draw(k))) &&
    (forall r <- refs :: ValueIn(st, r).Some? ==> ValueIn(st, r).value in run.known)
  }

  lemma {:induction false} KnownValues(st: Store, refs: seq<BomRef>, draw: nat -> Name, first: nat)
    ensures KnownIs(st, refs, draw, first, Discriminated(st, refs, draw, first))
  {
    if refs != [] {
      var front, last := refs[..|refs| - 1], refs[|refs| - 1];
      assert refs == front + [last];
      KnownValues(st, front, draw, first);
      OthersAreUntouched(st, front, draw, first);
      AllAreNamed(st, front, draw, first);
      var before, run := Discriminated(st, front, draw, first), Discriminated(st, refs, draw, first);
      forall x <- run.known
        ensures (exists r <- refs :: ValueIn(st, r) == Some(x)) || (exists k: nat :: k < run.drawn && x == draw(k))
      {
        if x in before.known {
          if r :| r in front && ValueIn(st, r) == Some(x) {
            assert r in refs;
          }
        } else if Renames(before, last) {
          assert x == draw(before.drawn);
        } else {
          assert last in refs && ValueIn(st, last) == Some(x);
        }
      }
    }
  }

  lemma {:induction false} GoodSupplyIsFresh(st: Store, refs: seq<BomRef>, draw: nat -> Name, first: nat)
    requires GoodSupply(st, refs, draw)
    ensures FreshDraws(st, refs, draw, first)
  {
    if refs != [] {
      var front := refs[..|refs| - 1];
      assert forall r <- front :: r in refs;
      GoodSupplyIsFresh(st, front, draw, first);
      KnownValues(st, front, draw, first);
    }
  }

  lemma KeepsOfFront(st: Store, refs: seq<BomRef>, i: nat)
    requires i < |refs| - 1 && refs[i] != refs[|refs| - 1]
    ensures Keeps(st, refs, i) <==> Keeps(st, refs[..|refs| - 1], i)
  {
  }

  // An object met for the first time keeps its value exactly when no earlier one started with it.
  lemma FirstMeeting(st: Store, refs: seq<BomRef>, draw: nat -> Name, first: nat)
    requires GoodSupply(st, refs, draw) && refs != [] && refs[|refs| - 1] !in refs[..|refs| - 1]
    ensures Renames(Discriminated(st, refs[..|refs| - 1], draw, first), refs[|refs| - 1]) <==>
            !Keeps(st, refs, |refs| - 1)
  {
    var front, last := refs[..|refs| - 1], refs[|refs| - 1];
    assert forall j :: 0 <= j < |front| ==> front[j] == refs[j];
    assert last in refs;
    OthersAreUntouched(st, front, draw, first);
    KnownValues(st, front, draw, first);
    if Keeps(st, refs, |refs| - 1) {
      forall r <- front ensures ValueIn(st, r) != ValueIn(st, last) {
        var j :| 0 <= j < |front| && front[j] == r;
        assert refs[j] == r;
      }
    } else if ValueIn(st, last).Some? {
      var j :| 0 <= j < |front| && ValueIn(st, refs[j]) == ValueIn(st, last);
      assert front[j] in front;
    }
  }

  // With good names exactly the first holder of a value keeps it, if it is listed once.
  lemma {:induction false} KeptIffFirstHolder(st: Store, refs: seq<BomRef>, draw: nat -> Name, first: nat, i: nat)
    requires GoodSupply(st, refs, draw) && i < |refs|
    ensures ValueIn(Discriminated(st, refs, draw, first).store, refs[i]) == ValueIn(st, refs[i]) <==> Keeps(st, refs, i)
  {
    var front, last := refs[..|refs| - 1], refs[|refs| - 1];
    assert forall r <- front :: r in refs;
    assert refs[i] in refs && forall j :: 0 <= j < |front| ==> front[j] == refs[j];
    if last in front {
      AllAreNamed(st, front, draw, first);
      assert Renames(Discriminated(st, front, draw, first), last);
    } else {
      FirstMeeting(st, refs, draw, first);
    }
    if refs[i] == last {
      OthersAreUntouched(st, front, draw, first);
      if last in front {
        var j :| 0 <= j < |front| && front[j] == last;
        assert refs[j] == refs[|front|] == refs[i] && !Keeps(st, refs, i);
      }
    } else {
      KeptIffFirstHolder(st, front, draw, first, i);
      KeepsOfFront(st, refs, i);
    }
  }

  // A ref that changes gets a name that was drawn.
  lemma {:induction false} ChangedAreDrawn(st: Store, refs: seq<BomRef>, draw: nat -> Name, first: nat, r: BomRef)
    ensures var run := Discriminated(st, refs, draw, first);
            ValueIn(run.store, r) == ValueIn(st, r) || exists k: nat :: ValueIn(run.store, r) == Some(draw(k))
  {
    if refs != [] {
      ChangedAreDrawn(st, refs[..|refs| - 1], draw, first, r);
    }
  }
}
