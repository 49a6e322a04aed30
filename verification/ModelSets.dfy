/** Sorted sets of model objects: one listing for one set of elements. */
module ModelSets {
  import opened Compare
  import opened SortedSets
  import opened Text

  function SortedSet(xs: seq<Value>): seq<Value> {
    FromSeq(IsLess, xs)
  }

  ghost predicate AllConform(xs: seq<Value>, shape: Shape) {
    forall x <- xs :: Conforms(x, shape)
  }

  lemma ConformingIsTotal(xs: seq<Value>, shape: Shape)
    requires AllConform(xs, shape)
    ensures StrictTotalOn(IsLess, Elements(xs))
  {
    forall a <- Elements(xs), b <- Elements(xs), c <- Elements(xs)
      ensures !IsLess(a, a) && (a == b || IsLess(a, b) || IsLess(b, a))
      ensures IsLess(a, b) && IsLess(b, c) ==> IsLess(a, c)
    {
      LessIrreflexive(a);
      TotalOnShape(a, b, shape);
      TotalOnShape(b, c, shape);
      if IsLess(a, b) && IsLess(b, c) {
        LessTransitive(a, b, c);
      }
    }
  }

  // Objects that hold sets filled from the same elements, in any order and with any repeats, are
  // equal: their comparable tuples list the sets alike. Such a listing fits a list shape in turn,
  // so that the objects themselves are totally ordered.
  lemma InsertionOrderDoesNotShow(xs: seq<Value>, ys: seq<Value>, shape: Shape)
    requires AllConform(xs, shape) && Elements(xs) == Elements(ys)
    ensures Tuple(SortedSet(xs)) == Tuple(SortedSet(ys))
    ensures Conforms(Tuple(SortedSet(xs)), ListShape(shape))
  {
    ConformingIsTotal(xs, shape);
    InsertionOrderIsIrrelevant(IsLess, xs, ys);
    FromSeqSorted(IsLess, xs);
    forall i | 0 <= i < |SortedSet(xs)| ensures Conforms(SortedSet(xs)[i], shape) {
      assert SortedSet(xs)[i] in Elements(SortedSet(xs));
    }
  }

  lemma ListedAgain(s: seq<Value>)
    requires Sorted(IsLess, s)
    ensures SortedSet(s) == s
  {
    forall a <- s, b <- s | IsLess(a, b) ensures !IsLess(b, a) {
      LessAsymmetric(a, b);
    }
    SortedIsStrictTotal(IsLess, s);
    SortedIsFixed(IsLess, s);
  }

  // Sorted sets list numbers by size and texts by their characters, smallest first.
  lemma SimpleValuesAscend(xs: seq<Value>, i: nat, j: nat)
    requires AllConform(xs, NumberShape) || AllConform(xs, StrShape)
    requires i < j < |SortedSet(xs)|
    ensures AllConform(xs, NumberShape) ==>
              SortedSet(xs)[i].Number? && SortedSet(xs)[j].Number? && SortedSet(xs)[i].n < SortedSet(xs)[j].n
    ensures AllConform(xs, StrShape) ==>
              SortedSet(xs)[i].Str? && SortedSet(xs)[j].Str? && StringLess(SortedSet(xs)[i].s, SortedSet(xs)[j].s)
  {
    ConformingIsTotal(xs, if AllConform(xs, NumberShape) then NumberShape else StrShape);
    FromSeqSorted(IsLess, xs);
    var a, b := SortedSet(xs)[i], SortedSet(xs)[j];
    assert IsLess(a, b) && a in Elements(SortedSet(xs)) && b in Elements(SortedSet(xs));
    assert a in xs && b in xs;
  }
}
