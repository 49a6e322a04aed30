/**
 * `SortedSet`, seen as the sequence it lists: adding puts a new element after the last
 * element that is not greater, and does nothing for an element that is already present.
 */
module SortedSets {

  function InsertRight<T>(less: (T, T) -> bool, s: seq<T>, x: T): seq<T> {
    if s == [] then [x]
    else if less(x, s[0]) then [x] + s
    else [s[0]] + InsertRight(less, s[1..], x)
  }

  function Add<T(==)>(less: (T, T) -> bool, s: seq<T>, x: T): seq<T> {
    if x in s then s else InsertRight(less, s, x)
  }

  function AddAll<T(==)>(less: (T, T) -> bool, s: seq<T>, xs: seq<T>): seq<T> {
    if xs == [] then s else Add(less, AddAll(less, s, xs[..|xs| - 1]), xs[|xs| - 1])
  }

  function FromSeq<T(==)>(less: (T, T) -> bool, xs: seq<T>): seq<T> {
    AddAll(less, [], xs)
  }

  // ---------- orders ----------

  ghost predicate StrictOn<T>(less: (T, T) -> bool, s: set<T>) {
    (forall a <- s :: !less(a, a)) &&
    forall a <- s, b <- s, c <- s :: less(a, b) && less(b, c) ==> less(a, c)
  }

  ghost predicate TotalOn<T>(less: (T, T) -> bool, s: set<T>) {
    forall a <- s, b <- s :: a == b || less(a, b) || less(b, a)
  }

  // Being unordered is transitive, so the order ranks elements even where it does not separate them.
  ghost predicate WeakOn<T>(less: (T, T) -> bool, s: set<T>) {
    (forall a <- s, b <- s :: less(a, b) ==> !less(b, a)) &&
    forall a <- s, b <- s, c <- s :: !less(a, b) && !less(b, c) ==> !less(a, c)
  }

  ghost predicate StrictTotalOn<T>(less: (T, T) -> bool, s: set<T>) {
    StrictOn(less, s) && TotalOn(less, s)
  }

  lemma StrictTotalIsWeak<T>(less: (T, T) -> bool, s: set<T>)
    requires StrictTotalOn(less, s)
    ensures WeakOn(less, s)
  {
  }

  function Elements<T>(s: seq<T>): set<T> {
    set x | x in s
  }

  ghost predicate Sorted<T>(less: (T, T) -> bool, s: seq<T>) {
    forall i, j :: 0 <= i < j < |s| ==> less(s[i], s[j])
  }

  ghost predicate WeaklySorted<T>(less: (T, T) -> bool, s: seq<T>) {
    forall i, j :: 0 <= i < j < |s| ==> !less(s[j], s[i])
  }

  ghost predicate Distinct<T>(s: seq<T>) {
    forall i, j :: 0 <= i < j < |s| ==> s[i] != s[j]
  }

  // ---------- what adding keeps, under any comparison ----------

  lemma {:induction false} InsertRightElements<T>(less: (T, T) -> bool, s: seq<T>, x: T)
    ensures |InsertRight(less, s, x)| == |s| + 1
    ensures multiset(InsertRight(less, s, x)) == multiset(s) + multiset{x}
    ensures forall y :: y in InsertRight(less, s, x) <==> y in s || y == x
  {
    if s != [] {
      assert s == [s[0]] + s[1..];
      if !less(x, s[0]) {
        InsertRightElements(less, s[1..], x);
      }
    }
  }

  lemma ElementsOfConcat<T>(s: seq<T>, t: seq<T>)
    ensures Elements(s + t) == Elements(s) + Elements(t)
  {
  }

  lemma EmptyIffNoElements<T>(s: seq<T>)
    ensures s == [] <==> Elements(s) == {}
  {
    if s != [] {
      assert s[0] in Elements(s);
    }
  }

  lemma OnlyElement<T>(s: seq<T>, x: T)
    requires Elements(s) == {x}
    ensures Distinct(s) ==> s == [x]
  {
    EmptyIffNoElements(s);
    assert s[0] in Elements(s);
    if |s| > 1 {
      assert s[1] in Elements(s);
    }
  }

  lemma {:induction false} InsertRightElementSet<T>(less: (T, T) -> bool, s: seq<T>, x: T)
    ensures Elements(InsertRight(less, s, x)) == Elements(s) + {x}
  {
    if s != [] {
      assert s == [s[0]] + s[1..];
      ElementsOfConcat([s[0]], s[1..]);
      if less(x, s[0]) {
        ElementsOfConcat([x], s);
      } else {
        InsertRightElementSet(less, s[1..], x);
        ElementsOfConcat([s[0]], InsertRight(less, s[1..], x));
      }
    }
  }

  lemma {:induction false} InsertRightSplits<T>(less: (T, T) -> bool, s: seq<T>, x: T) returns (p: nat)
    ensures p <= |s| && InsertRight(less, s, x) == s[..p] + [x] + s[p..]
  {
    if s == [] || less(x, s[0]) {
      p := 0;
    } else {
      var q := InsertRightSplits(less, s[1..], x);
      p := q + 1;
      assert s[..p] == [s[0]] + s[1..][..q] && s[p..] == s[1..][q..];
    }
  }

  // The place to insert at is the one after which every element is greater so far as sorted.
  lemma {:induction false} InsertRightAt<T>(less: (T, T) -> bool, s: seq<T>, x: T, i: nat)
    requires i <= |s|
    requires forall j :: 0 <= j < i ==> !less(x, s[j])
    requires i < |s| ==> less(x, s[i])
    ensures InsertRight(less, s, x) == s[..i] + [x] + s[i..]
  {
    if i > 0 {
      InsertRightAt(less, s[1..], x, i - 1);
      assert s[..i] == [s[0]] + s[1..][..i - 1] && s[i..] == s[1..][i - 1..];
    }
  }

  lemma DistinctCons<T>(h: T, t: seq<T>)
    ensures Distinct([h] + t) <==> h !in t && Distinct(t)
  {
    var s := [h] + t;
    assert forall i :: 0 <= i < |t| ==> s[i + 1] == t[i];
    if Distinct(s) {
      forall i, j | 0 <= i < j < |t| ensures t[i] != t[j] {
        assert s[i + 1] != s[j + 1];
      }
      forall i | 0 <= i < |t| ensures t[i] != h {
        assert s[0] != s[i + 1];
      }
    }
  }

  lemma {:induction false} InsertRightDistinct<T>(less: (T, T) -> bool, s: seq<T>, x: T)
    requires Distinct(s) && x !in s
    ensures Distinct(InsertRight(less, s, x))
  {
    if s != [] {
      var h, rest := s[0], s[1..];
      assert s == [h] + rest;
      DistinctCons(h, rest);
      if less(x, h) {
        DistinctCons(x, s);
      } else {
        InsertRightDistinct(less, rest, x);
        InsertRightElements(less, rest, x);
        assert h !in multiset(InsertRight(less, rest, x));
        DistinctCons(h, InsertRight(less, rest, x));
      }
    }
  }

  lemma InsertRightDistinctIff<T>(less: (T, T) -> bool, s: seq<T>, x: T)
    ensures Distinct(InsertRight(less, s, x)) <==> Distinct(s) && x !in s
  {
    if Distinct(s) && x !in s {
      InsertRightDistinct(less, s, x);
    }
    var p := InsertRightSplits(less, s, x);
    var all := s[..p] + [x] + s[p..];
    assert all[p] == x && forall i :: 0 <= i < |s| ==> s[i] == all[if i < p then i else i + 1];
  }

  lemma AddKeeps<T>(less: (T, T) -> bool, s: seq<T>, x: T)
    ensures forall y :: y in Add(less, s, x) <==> y in s || y == x
    ensures Distinct(s) ==> Distinct(Add(less, s, x))
  {
    InsertRightElements(less, s, x);
    if x !in s && Distinct(s) {
      InsertRightDistinct(less, s, x);
    }
  }

  // A sorted set lists each of its members once, and no others.
  lemma {:induction false} AddAllKeeps<T>(less: (T, T) -> bool, s: seq<T>, xs: seq<T>)
    ensures forall y :: y in AddAll(less, s, xs) <==> y in s || y in xs
    ensures Distinct(s) ==> Distinct(AddAll(less, s, xs))
  {
    if xs != [] {
      var front, last := xs[..|xs| - 1], xs[|xs| - 1];
      assert xs == front + [last];
      AddAllKeeps(less, s, front);
      AddKeeps(less, AddAll(less, s, front), last);
    }
  }

  // ---------- what adding keeps, under an order ----------

  lemma PrependWeaklySorted<T>(less: (T, T) -> bool, x: T, s: seq<T>)
    requires WeaklySorted(less, s)
    requires forall i :: 0 <= i < |s| ==> !less(s[i], x)
    ensures WeaklySorted(less, [x] + s)
  {
  }

  lemma {:induction false} InsertRightSorted<T>(less: (T, T) -> bool, s: seq<T>, x: T)
    requires WeakOn(less, Elements(s) + {x})
    requires WeaklySorted(less, s)
    ensures WeaklySorted(less, InsertRight(less, s, x))
  {
    if s != [] {
      var h, rest := s[0], s[1..];
      assert h in Elements(s);
      if less(x, h) {
        forall i | 0 <= i < |s| ensures !less(s[i], x) {
          assert s[i] in Elements(s);
          assert i == 0 || !less(s[i], h);
        }
        PrependWeaklySorted(less, x, s);
      } else {
        var r := InsertRight(less, rest, x);
        assert Elements(rest) + {x} <= Elements(s) + {x};
        InsertRightSorted(less, rest, x);
        InsertRightElements(less, rest, x);
        forall i | 0 <= i < |r| ensures !less(r[i], h) {
          if r[i] != x {
            assert r[i] in multiset(r) && r[i] in rest;
            var k :| 0 <= k < |rest| && rest[k] == r[i];
            assert !less(s[k + 1], s[0]);
          }
        }
        PrependWeaklySorted(less, h, r);
      }
    }
  }

  lemma {:induction false} AddAllWeaklySorted<T>(less: (T, T) -> bool, s: seq<T>, xs: seq<T>)
    requires WeakOn(less, Elements(s) + Elements(xs))
    requires WeaklySorted(less, s)
    ensures WeaklySorted(less, AddAll(less, s, xs))
  {
    if xs != [] {
      var front, last := xs[..|xs| - 1], xs[|xs| - 1];
      assert Elements(front) <= Elements(xs) && last in Elements(xs);
      AddAllWeaklySorted(less, s, front);
      AddAllKeeps(less, s, front);
      assert Elements(AddAll(less, s, front)) + {last} <= Elements(s) + Elements(xs);
      InsertRightSorted(less, AddAll(less, s, front), last);
    }
  }

  lemma WeaklySortedIsSorted<T>(less: (T, T) -> bool, s: seq<T>)
    requires TotalOn(less, Elements(s)) && Distinct(s) && WeaklySorted(less, s)
    ensures Sorted(less, s)
  {
  }

  lemma {:induction false} FromSeqSorted<T>(less: (T, T) -> bool, xs: seq<T>)
    requires StrictTotalOn(less, Elements(xs))
    ensures Sorted(less, FromSeq(less, xs))
    ensures Elements(FromSeq(less, xs)) == Elements(xs)
  {
    StrictTotalIsWeak(less, Elements(xs));
    assert Elements([]) + Elements(xs) == Elements(xs);
    AddAllWeaklySorted(less, [], xs);
    AddAllKeeps(less, [], xs);
    assert Elements(FromSeq(less, xs)) == Elements(xs) by {
      assert forall x :: x in FromSeq(less, xs) <==> x in xs;
    }
    WeaklySortedIsSorted(less, FromSeq(less, xs));
  }

  // ---------- canonicity ----------

  // A strict order lists a given set of elements in one way only.
  lemma {:induction false} SortedIsUnique<T>(less: (T, T) -> bool, s: seq<T>, t: seq<T>)
    requires StrictOn(less, Elements(s))
    requires Sorted(less, s) && Sorted(less, t)
    requires Elements(s) == Elements(t)
    ensures s == t
  {
    assert (s == [] || s[0] in Elements(s)) && (t == [] || t[0] in Elements(t));
    if s != [] {
      var a, b := s[0], t[0];
      assert a in Elements(t) && b in Elements(s);
      var i :| 0 <= i < |t| && t[i] == a;
      var j :| 0 <= j < |s| && s[j] == b;
      assert a == b by {
        assert (i > 0 ==> less(b, a)) && (j > 0 ==> less(a, b));
        assert less(a, b) && less(b, a) ==> less(a, a);
      }
      forall x ensures x in s[1..] <==> x in Elements(s) && x != a {
        if x in s[1..] {
          var k :| 1 <= k < |s| && s[k] == x;
          assert less(a, s[k]) && s[k] in Elements(s);
        }
      }
      forall x ensures x in t[1..] <==> x in Elements(t) && x != a {
        if x in t[1..] {
          var k :| 1 <= k < |t| && t[k] == x;
          assert less(a, t[k]) && t[k] in Elements(t);
        }
      }
      SortedIsUnique(less, s[1..], t[1..]);
      assert s == [a] + s[1..] && t == [a] + t[1..];
    }
  }

  // Neither the order of insertion nor repeats show in a sorted set.
  lemma InsertionOrderIsIrrelevant<T>(less: (T, T) -> bool, xs: seq<T>, ys: seq<T>)
    requires Elements(xs) == Elements(ys)
    requires StrictTotalOn(less, Elements(xs))
    ensures FromSeq(less, xs) == FromSeq(less, ys)
  {
    FromSeqSorted(less, xs);
    FromSeqSorted(less, ys);
    SortedIsUnique(less, FromSeq(less, xs), FromSeq(less, ys));
  }

  // Elements that were sorted are in a strict total order, if never two are less than each other.
  lemma SortedIsStrictTotal<T>(less: (T, T) -> bool, s: seq<T>)
    requires Sorted(less, s) && forall a <- s, b <- s :: less(a, b) ==> !less(b, a)
    ensures StrictTotalOn(less, Elements(s))
  {
    forall a <- Elements(s), b <- Elements(s) ensures a == b || less(a, b) || less(b, a) {
      var i :| 0 <= i < |s| && s[i] == a;
      var j :| 0 <= j < |s| && s[j] == b;
    }
    forall a <- Elements(s), b <- Elements(s), c <- Elements(s) | less(a, b) && less(b, c) ensures less(a, c) {
      var i :| 0 <= i < |s| && s[i] == a;
      var j :| 0 <= j < |s| && s[j] == b;
      var k :| 0 <= k < |s| && s[k] == c;
      assert i < j < k by {
        assert less(a, b) ==> !less(b, a) && a in s && b in s;
        assert less(b, c) ==> !less(c, b) && c in s;
      }
    }
  }

  // A sorted set built again from its own listing is the same listing.
  lemma SortedIsFixed<T>(less: (T, T) -> bool, s: seq<T>)
    requires StrictTotalOn(less, Elements(s)) && Sorted(less, s)
    ensures FromSeq(less, s) == s
  {
    FromSeqSorted(less, s);
    SortedIsUnique(less, FromSeq(less, s), s);
  }
}
