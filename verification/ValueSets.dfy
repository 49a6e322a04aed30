/**
 * Python sets of model objects: elements that compare equal by value count as one, and the
 * element that is already there stays when an equal one arrives.
 */
module ValueSets {
  import opened Compare

  datatype Item<+T> = Item(element: T, value: Value)

  predicate Contains<T>(found: seq<Item<T>>, v: Value) {
    exists i :: 0 <= i < |found| && found[i].value == v
  }

  function Include<T>(found: seq<Item<T>>, x: Item<T>): seq<Item<T>> {
    if Contains(found, x.value) then found else found + [x]
  }

  function IncludeAll<T>(found: seq<Item<T>>, xs: seq<Item<T>>): seq<Item<T>> {
    if xs == [] then found else Include(IncludeAll(found, xs[..|xs| - 1]), xs[|xs| - 1])
  }

  // The set built from a list: of equal elements, the first.
  function FirstOfEach<T>(xs: seq<Item<T>>): seq<Item<T>> {
    IncludeAll([], xs)
  }

  lemma FirstOfOne<T>(x: Item<T>)
    ensures FirstOfEach([x]) == [x] == Include([], x)
  {
    var xs, none: seq<Item<T>> := [x], [];
    assert xs[..|xs| - 1] == none;
    assert IncludeAll(none, xs) == Include(IncludeAll(none, none), x);
  }

  lemma {:induction false} IncludeAllConcat<T>(found: seq<Item<T>>, xs: seq<Item<T>>, ys: seq<Item<T>>)
    ensures IncludeAll(found, xs + ys) == IncludeAll(IncludeAll(found, xs), ys)
  {
    if ys == [] {
      assert xs + ys == xs;
    } else {
      var front := ys[..|ys| - 1];
      assert (xs + ys)[..|xs + ys| - 1] == xs + front;
      IncludeAllConcat(found, xs, front);
    }
  }

  lemma {:induction false} IncludeAllCovers<T>(found: seq<Item<T>>, xs: seq<Item<T>>, i: nat)
    requires i < |xs|
    ensures Contains(IncludeAll(found, xs), xs[i].value)
  {
    var before, last := IncludeAll(found, xs[..|xs| - 1]), xs[|xs| - 1];
    if i < |xs| - 1 {
      IncludeAllCovers(found, xs[..|xs| - 1], i);
      var k :| 0 <= k < |before| && before[k].value == xs[i].value;
      assert Include(before, last)[k].value == xs[i].value;
    } else if !Contains(before, last.value) {
      assert Include(before, last)[|before|] == last;
    }
  }

  // Adding all of a set adds what adding its source list would add.
  lemma {:induction false} IncludeAllOfSet<T>(found: seq<Item<T>>, xs: seq<Item<T>>)
    ensures IncludeAll(found, FirstOfEach(xs)) == IncludeAll(found, xs)
  {
    if xs != [] {
      var front, last := xs[..|xs| - 1], xs[|xs| - 1];
      var seen := FirstOfEach(front);
      IncludeAllOfSet(found, front);
      if Contains(seen, last.value) {
        var k :| 0 <= k < |seen| && seen[k].value == last.value;
        IncludeAllCovers(found, seen, k);
      } else {
        IncludeAllConcat(found, seen, [last]);
        assert [last][..0] == [];
      }
    }
  }

  // A set holds elements of its source list, no two equal, and one equal to each.
  lemma {:induction false} FirstOfEachIsASet<T>(xs: seq<Item<T>>)
    ensures forall i :: 0 <= i < |FirstOfEach(xs)| ==> FirstOfEach(xs)[i] in xs
    ensures forall i, j :: 0 <= i < j < |FirstOfEach(xs)| ==> FirstOfEach(xs)[i].value != FirstOfEach(xs)[j].value
    ensures forall i :: 0 <= i < |xs| ==> Contains(FirstOfEach(xs), xs[i].value)
  {
    forall i | 0 <= i < |xs| ensures Contains(FirstOfEach(xs), xs[i].value) {
      IncludeAllCovers([], xs, i);
    }
    if xs != [] {
      var front, last := xs[..|xs| - 1], xs[|xs| - 1];
      assert xs == front + [last];
      FirstOfEachIsASet(front);
      var seen, all := FirstOfEach(front), FirstOfEach(xs);
      assert all == Include(seen, last);
      forall i | 0 <= i < |all| ensures all[i] in xs && forall j :: 0 <= j < i ==> all[j].value != all[i].value {
        assert i < |seen| ==> seen[i] in front;
      }
    }
  }

  // The first of equal elements is in the set itself, not through an equal one.
  lemma {:induction false} FirstIsKept<T>(xs: seq<Item<T>>, i: nat)
    requires i < |xs| && forall j :: 0 <= j < i ==> xs[j].value != xs[i].value
    ensures xs[i] in FirstOfEach(xs)
  {
    var front := xs[..|xs| - 1];
    if i < |front| {
      FirstIsKept(front, i);
    } else {
      var seen := FirstOfEach(front);
      FirstOfEachIsASet(front);
      forall k | 0 <= k < |seen| ensures seen[k].value != xs[i].value {
        assert seen[k] in front;
      }
      assert FirstOfEach(xs) == Include(seen, xs[i]) == seen + [xs[i]];
    }
  }
}
