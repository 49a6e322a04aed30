/**
 * The order behind every model class: `ComparableTuple`, which pads the shorter tuple
 * with None, treats None as greatest and recurses into nested tuples.
 */
module Compare {
  import opened BomRefs
  import opened Text

  // Two license classes order themselves against each other; all other classes do not.
  datatype Class = LicenseExpression | DisjunctiveLicense | Other(name: string)

  /** What can stand in a comparable tuple. Structural equality is Python's `==`. */
  datatype Value =
    | Nothing
    | Number(n: int)
    | Str(s: string)
    | Ref(key: RefKey)
    | Pair(left: string, right: string)  // an item of a dictionary, which is a plain tuple
    | Tuple(items: seq<Value>)
    | Object(cls: Class, fields: seq<Value>)

  // A comparison returns a bool or raises TypeError on operands it does not support.
  datatype Verdict = Holds | Fails | TypeError

  function Decide(b: bool): Verdict {
    if b then Holds else Fails
  }

  // How deep tuples and objects are nested.
  function Depth(v: Value): nat {
    match v
    case Tuple(items) => 1 + DepthOf(items)
    case Object(_, fields) => 1 + DepthOf(fields)
    case _ => 0
  }

  function DepthOf(s: seq<Value>): (n: nat)
    ensures forall i :: 0 <= i < |s| ==> Depth(s[i]) <= n
  {
    if s == [] then 0
    else
      var first, rest := Depth(s[0]), DepthOf(s[1..]);
      if first < rest then rest else first
  }

  // `zip_longest`: what is missing reads as None.
  function Head(s: seq<Value>): (v: Value)
    ensures Depth(v) <= DepthOf(s)
  {
    if s == [] then Nothing else s[0]
  }

  function Tail(s: seq<Value>): (t: seq<Value>)
    ensures DepthOf(t) <= DepthOf(s)
  {
    if s == [] then s else s[1..]
  }

  function Characters(s: string): (cs: seq<Value>)
    ensures |cs| == |s| && forall i :: 0 <= i < |s| ==> cs[i] == Str([s[i]])
    ensures DepthOf(cs) == 0
  {
    if s == "" then [] else [Str([s[0]])] + Characters(s[1..])
  }

  // A tuple compares item by item with whatever can be iterated: a text gives its characters.
  predicate Iterable(v: Value) {
    v.Tuple? || v.Pair? || v.Str?
  }

  function Parts(v: Value): (parts: seq<Value>)
    requires Iterable(v)
    ensures DepthOf(parts) <= Depth(v) && (v.Tuple? ==> DepthOf(parts) < Depth(v))
  {
    match v
    case Tuple(items) => items
    case Pair(k, v) =>
      assert DepthOf([Str(v)]) == 0 && [Str(k), Str(v)][1..] == [Str(v)];
      [Str(k), Str(v)]
    case Str(s) => Characters(s)
  }

  /** `a < b`; where only `b` is a comparable tuple, its `__gt__` answers. */
  function Less(a: Value, b: Value): Verdict
    decreases Depth(a) + Depth(b), 0, 0
  {
    if a.Tuple? && Iterable(b) then LessItems(a.items, Parts(b))
    else if b.Tuple? && Iterable(a) then GreaterItems(b.items, Parts(a))
    else
      match (a, b)
      case (Number(m), Number(n)) => Decide(m < n)
      case (Str(s), Str(t)) => Decide(StringLess(s, t))
      case (Ref(k), Ref(l)) => Decide(KeyLess(k, l))
      case (Pair(k, v), Pair(l, w)) => Decide(if k == l then StringLess(v, w) else StringLess(k, l))
      case (Object(c, x), Object(d, y)) =>
        if c == d then LessItems(x, y)
        else if c == LicenseExpression && d == DisjunctiveLicense then Holds
        else if c == DisjunctiveLicense && d == LicenseExpression then Fails
        else TypeError
      case _ => TypeError
  }

  /** `ComparableTuple.__lt__` */
  function LessItems(x: seq<Value>, y: seq<Value>): Verdict
    decreases DepthOf(x) + DepthOf(y), 1, |x| + |y|
  {
    if x == [] && y == [] then Fails
    else if Head(x) == Head(y) then LessItems(Tail(x), Tail(y))
    else if Head(x).Nothing? then Fails
    else if Head(y).Nothing? then Holds
    else Less(Head(x), Head(y))
  }

  /** `a > b`; a class that defines only `__lt__` answers by its reflection. */
  function Greater(a: Value, b: Value): Verdict
    decreases Depth(a) + Depth(b), 0, 1
  {
    if a.Tuple? && Iterable(b) then GreaterItems(a.items, Parts(b))
    else if b.Tuple? && Iterable(a) then LessItems(b.items, Parts(a))
    else
      match (a, b)
      case (Number(m), Number(n)) => Decide(m > n)
      case (Str(s), Str(t)) => Decide(StringLess(t, s))
      case (Ref(k), Ref(l)) => Less(b, a)
      case (Pair(k, v), Pair(l, w)) => Decide(if k == l then StringLess(w, v) else StringLess(l, k))
      case (Object(c, x), Object(d, y)) => Less(b, a)
      case _ => TypeError
  }

  /** `ComparableTuple.__gt__` */
  function GreaterItems(x: seq<Value>, y: seq<Value>): Verdict
    decreases DepthOf(x) + DepthOf(y), 1, |x| + |y|
  {
    if x == [] && y == [] then Fails
    else if Head(x) == Head(y) then GreaterItems(Tail(x), Tail(y))
    else if Head(x).Nothing? then Holds
    else if Head(y).Nothing? then Fails
    else Greater(Head(x), Head(y))
  }

  predicate IsLess(a: Value, b: Value) {
    Less(a, b) == Holds
  }

  // ---------- what holds of all values, whatever their shapes ----------

  lemma {:induction false} LessIrreflexive(a: Value)
    ensures !IsLess(a, a)
  {
    match a
    case Nothing =>
    case Number(_) =>
    case Str(s) => StringLessIrreflexive(s);
    case Ref(k) => KeyLessIrreflexive(k);
    case Pair(_, v) => StringLessIrreflexive(v);
    case Tuple(x) => LessItemsIrreflexive(x);
    case Object(_, x) => LessItemsIrreflexive(x);
  }

  lemma {:induction false} LessItemsIrreflexive(x: seq<Value>)
    ensures LessItems(x, x) == Fails
  {
    if x != [] {
      LessItemsIrreflexive(Tail(x));
    }
  }

  // `__gt__` is the converse of `__lt__`, TypeErrors included.
  lemma {:induction false} GreaterIsConverse(a: Value, b: Value)
    ensures Greater(a, b) == Less(b, a)
    decreases Depth(a) + Depth(b), 0, 0
  {
    if a.Tuple? && b.Tuple? {
      GreaterItemsIsConverse(a.items, b.items);
    }
  }

  lemma {:induction false} GreaterItemsIsConverse(x: seq<Value>, y: seq<Value>)
    ensures GreaterItems(x, y) == LessItems(y, x)
    decreases DepthOf(x) + DepthOf(y), 1, |x| + |y|
  {
    if x == [] && y == [] {
    } else if Head(x) == Head(y) {
      GreaterItemsIsConverse(Tail(x), Tail(y));
    } else if !Head(x).Nothing? && !Head(y).Nothing? {
      GreaterIsConverse(Head(x), Head(y));
    }
  }

  // Where either side is a tuple, on whichever side, the parts decide.
  lemma LessByParts(a: Value, b: Value)
    requires Iterable(a) && Iterable(b) && (a.Tuple? || b.Tuple?)
    ensures Less(a, b) == LessItems(Parts(a), Parts(b))
  {
    if !a.Tuple? {
      GreaterItemsIsConverse(b.items, Parts(a));
    }
  }

  // A tuple meets a plain pair as the tuple of its two texts, and a text as that of its characters.
  lemma TupleMeetsOthers(x: seq<Value>, k: string, v: string, s: string)
    ensures Less(Tuple(x), Pair(k, v)) == Less(Tuple(x), Tuple([Str(k), Str(v)]))
    ensures Less(Pair(k, v), Tuple(x)) == Less(Tuple([Str(k), Str(v)]), Tuple(x))
    ensures var characters := seq(|s|, i requires 0 <= i < |s| => Str([s[i]]));
            Less(Tuple(x), Str(s)) == Less(Tuple(x), Tuple(characters)) &&
            Less(Str(s), Tuple(x)) == Less(Tuple(characters), Tuple(x))
  {
    var characters := seq(|s|, i requires 0 <= i < |s| => Str([s[i]]));
    assert Characters(s) == characters;
    LessByParts(Pair(k, v), Tuple(x));
    LessByParts(Str(s), Tuple(x));
  }

  lemma {:induction false} LessAsymmetric(a: Value, b: Value)
    requires IsLess(a, b)
    ensures !IsLess(b, a)
    decreases Depth(a) + Depth(b), 0, 0
  {
    if (a.Tuple? || b.Tuple?) && Iterable(a) && Iterable(b) {
      LessByParts(a, b);
      LessByParts(b, a);
      LessItemsAsymmetric(Parts(a), Parts(b));
      return;
    }
    match (a, b)
    case (Str(s), Str(t)) => StringLessAsymmetric(s, t);
    case (Ref(k), Ref(l)) => StringLessAsymmetric(k.Text(), l.Text());
    case (Pair(k, v), Pair(l, w)) => if k == l { StringLessAsymmetric(v, w); } else { StringLessAsymmetric(k, l); }
    case (Object(c, x), Object(d, y)) => if c == d { LessItemsAsymmetric(x, y); }
    case _ =>
  }

  lemma {:induction false} LessItemsAsymmetric(x: seq<Value>, y: seq<Value>)
    requires LessItems(x, y) == Holds
    ensures LessItems(y, x) != Holds
    decreases DepthOf(x) + DepthOf(y), 1, |x| + |y|
  {
    if Head(x) == Head(y) {
      LessItemsAsymmetric(Tail(x), Tail(y));
    } else if !Head(y).Nothing? {
      LessAsymmetric(Head(x), Head(y));
    }
  }

  // Simple values compare within their kind, numbers by size and texts by their characters; values of
  // different kinds do not compare, and None compares with nothing.
  lemma SimpleValuesCompare(a: Value, b: Value)
    requires !a.Tuple? && !a.Object? && !b.Tuple? && !b.Object?
    ensures Less(a, b) != TypeError <==>
            (a.Number? && b.Number?) || (a.Str? && b.Str?) || (a.Ref? && b.Ref?) || (a.Pair? && b.Pair?)
    ensures a.Number? && b.Number? ==> (IsLess(a, b) <==> a.n < b.n)
    ensures a.Str? && b.Str? ==> (IsLess(a, b) <==> StringLess(a.s, b.s))
    ensures a.Pair? && b.Pair? ==>
              (IsLess(a, b) <==> StringLess(a.left, b.left) || (a.left == b.left && StringLess(a.right, b.right)))
  {
    if a.Pair? {
      StringLessIrreflexive(a.left);
    }
  }

  // A tuple does not compare with what cannot be iterated, nor an object with one of another class,
  // except a license expression, which is less than any disjunctive license.
  lemma UnlikeValuesDoNotCompare(a: Value, b: Value)
    requires (a.Tuple? && !b.Tuple? && !b.Str? && !b.Pair?) || (a.Object? && !b.Object?) ||
             (a.Object? && b.Object? && a.cls != b.cls)
    ensures var licenses := a.Object? && b.Object? && {a.cls, b.cls} == {LicenseExpression, DisjunctiveLicense};
            Less(a, b) == Less(b, a) == TypeError <==> !licenses
    ensures a.Object? && b.Object? && a.cls == LicenseExpression && b.cls == DisjunctiveLicense ==>
              IsLess(a, b) && Less(b, a) == Fails
  {
    if a.Object? && b.Object? && {a.cls, b.cls} == {LicenseExpression, DisjunctiveLicense} {
      assert a.cls in {LicenseExpression, DisjunctiveLicense} && b.cls in {LicenseExpression, DisjunctiveLicense};
    }
  }

  // ---------- where the order is transitive ----------

  // What decides the comparison is a tuple on one side, and a text or a plain pair on the other.
  predicate KindsClash(a: Value, b: Value)
    decreases a, b
  {
    match (a, b)
    case (Tuple(x), Tuple(y)) => ItemsClash(x, y)
    case (Object(c, x), Object(d, y)) => c == d && ItemsClash(x, y)
    case (Tuple(_), _) => Iterable(b)
    case (_, Tuple(_)) => Iterable(a)
    case _ => false
  }

  predicate ItemsClash(x: seq<Value>, y: seq<Value>)
    decreases x, y
  {
    (x != [] || y != []) &&
    if Head(x) == Head(y) then ItemsClash(Tail(x), Tail(y))
    else !Head(x).Nothing? && !Head(y).Nothing? && KindsClash(Head(x), Head(y))
  }

  lemma {:induction false} LessTransitive(a: Value, b: Value, c: Value)
    requires IsLess(a, b) && IsLess(b, c)
    requires !KindsClash(a, b) && !KindsClash(b, c)
    ensures IsLess(a, c)
    decreases a, b, c
  {
    match a
    case Nothing =>
    case Number(_) =>
    case Str(s) => StringLessTransitive(s, b.s, c.s);
    case Ref(k) => KeyLessTransitive(k, b.key, c.key);
    case Pair(k, v) =>
      if k == b.left == c.left {
        StringLessTransitive(v, b.right, c.right);
      } else if k != b.left && b.left != c.left {
        StringLessTransitive(k, b.left, c.left);
        StringLessIrreflexive(k);
      }
    case Tuple(x) => LessItemsTransitive(x, b.items, c.items);
    case Object(_, x) =>
      if a.cls == b.cls == c.cls {
        LessItemsTransitive(x, b.fields, c.fields);
      }
  }

  lemma {:induction false} LessItemsTransitive(x: seq<Value>, y: seq<Value>, z: seq<Value>)
    requires LessItems(x, y) == Holds && LessItems(y, z) == Holds
    requires !ItemsClash(x, y) && !ItemsClash(y, z)
    ensures LessItems(x, z) == Holds
    decreases x, y, z
  {
    if Head(x) == Head(y) == Head(z) {
      LessItemsTransitive(Tail(x), Tail(y), Tail(z));
    } else if Head(x) != Head(y) && Head(y) != Head(z) {
      if !Head(z).Nothing? {
        LessTransitive(Head(x), Head(y), Head(z));
        LessIrreflexive(Head(x));
      }
    }
  }

  // ---------- where the order is total ----------

  /** The shape of a comparable tuple: records have fixed fields, lists have any length. */
  datatype Shape =
    | NumberShape
    | StrShape
    | NamedRefShape
    | PairShape
    | ListShape(item: Shape)
    | RecordShape(slots: seq<Slot>)
    | ObjectShape(cls: Class, slots: seq<Slot>)
    | LicenseShape(expression: seq<Slot>, disjunctive: seq<Slot>)

  datatype Slot = Slot(shape: Shape, optional: bool)

  // Records may hold None in their optional slots; list items are never None.
  predicate Conforms(v: Value, shape: Shape)
    decreases v
  {
    match shape
    case NumberShape => v.Number?
    case StrShape => v.Str?
    case NamedRefShape => v.Ref? && v.key.Named?
    case PairShape => v.Pair?
    case ListShape(item) => v.Tuple? && forall i :: 0 <= i < |v.items| ==> Conforms(v.items[i], item)
    case RecordShape(slots) => v.Tuple? && Fill(v.items, slots)
    case ObjectShape(cls, slots) => v.Object? && v.cls == cls && Fill(v.fields, slots)
    case LicenseShape(expression, disjunctive) =>
      v.Object? && ((v.cls == LicenseExpression && Fill(v.fields, expression))
                    || (v.cls == DisjunctiveLicense && Fill(v.fields, disjunctive)))
  }

  predicate Fill(items: seq<Value>, slots: seq<Slot>)
    decreases items
  {
    |items| == |slots| &&
    forall i :: 0 <= i < |items| ==>
      (items[i].Nothing? && slots[i].optional) || Conforms(items[i], slots[i].shape)
  }

  // Both comparisons return a bool, and they order every two different values one way.
  predicate Ordered(a: Value, b: Value) {
    Less(a, b) != TypeError && Less(b, a) != TypeError &&
    (a == b || IsLess(a, b) || IsLess(b, a))
  }

  predicate OrderedItems(x: seq<Value>, y: seq<Value>) {
    LessItems(x, y) != TypeError && LessItems(y, x) != TypeError &&
    (x == y || LessItems(x, y) == Holds || LessItems(y, x) == Holds)
  }

  lemma {:induction false} TotalOnShape(a: Value, b: Value, shape: Shape)
    requires Conforms(a, shape) && Conforms(b, shape)
    ensures Ordered(a, b) && !KindsClash(a, b)
    decreases a, b
  {
    match shape
    case NumberShape =>
    case StrShape => StringLessTotal(a.s, b.s);
    case NamedRefShape => KeyLessTotalUnlessAnonymous(a.key, b.key);
    case PairShape =>
      StringLessTotal(a.left, b.left);
      StringLessTotal(a.right, b.right);
    case ListShape(item) => TotalOnLists(a.items, b.items, item);
    case RecordShape(slots) => TotalOnRecords(a.items, b.items, slots);
    case ObjectShape(_, slots) => TotalOnRecords(a.fields, b.fields, slots);
    case LicenseShape(expression, disjunctive) =>
      if a.cls == b.cls {
        TotalOnRecords(a.fields, b.fields, if a.cls == LicenseExpression then expression else disjunctive);
      }
  }

  // Where neither item is missing the first that differ decide.
  lemma HeadsDecide(x: seq<Value>, y: seq<Value>)
    requires x != [] && y != [] && x[0] != y[0] && !x[0].Nothing? && !y[0].Nothing?
    ensures OrderedItems(x, y) <==> Ordered(x[0], y[0])
    ensures ItemsClash(x, y) <==> KindsClash(x[0], y[0])
  {
  }

  lemma TailsDecide(x: seq<Value>, y: seq<Value>)
    requires x != [] && y != [] && x[0] == y[0]
    ensures OrderedItems(x, y) <==> OrderedItems(x[1..], y[1..])
    ensures ItemsClash(x, y) <==> ItemsClash(x[1..], y[1..])
  {
    assert x == [x[0]] + x[1..] && y == [y[0]] + y[1..];
  }

  lemma {:induction false} TotalOnLists(x: seq<Value>, y: seq<Value>, item: Shape)
    requires forall i :: 0 <= i < |x| ==> Conforms(x[i], item)
    requires forall i :: 0 <= i < |y| ==> Conforms(y[i], item)
    ensures OrderedItems(x, y) && !ItemsClash(x, y)
    decreases x, y
  {
    if x != [] && y != [] {
      if x[0] == y[0] {
        TotalOnLists(x[1..], y[1..], item);
        TailsDecide(x, y);
      } else {
        TotalOnShape(x[0], y[0], item);
        HeadsDecide(x, y);
      }
    }
  }

  lemma {:induction false} TotalOnRecords(x: seq<Value>, y: seq<Value>, slots: seq<Slot>)
    requires Fill(x, slots) && Fill(y, slots)
    ensures OrderedItems(x, y) && !ItemsClash(x, y)
    decreases x, y
  {
    if x != [] {
      if x[0] == y[0] {
        TotalOnRecords(x[1..], y[1..], slots[1..]);
        TailsDecide(x, y);
      } else if !x[0].Nothing? && !y[0].Nothing? {
        TotalOnShape(x[0], y[0], slots[0].shape);
        HeadsDecide(x, y);
      }
    }
  }

  // ---------- exactly where the order is silent ----------

  function ItemAt(x: seq<Value>, k: nat): (v: Value)
    ensures Depth(v) <= DepthOf(x)
  {
    if k < |x| then x[k] else Nothing
  }

  // The tuples agree wherever either has an item, the shorter one read as padded with None.
  ghost predicate PaddedEqual(x: seq<Value>, y: seq<Value>) {
    forall k: nat :: k < |x| || k < |y| ==> ItemAt(x, k) == ItemAt(y, k)
  }

  predicate FirstDifference(x: seq<Value>, y: seq<Value>, k: nat) {
    (k < |x| || k < |y|) && ItemAt(x, k) != ItemAt(y, k) &&
    forall i: nat :: i < k ==> ItemAt(x, i) == ItemAt(y, i)
  }

  // The first difference decides: None is greatest, and other items compare by their own order.
  lemma {:induction false} FirstDifferenceDecides(x: seq<Value>, y: seq<Value>, k: nat)
    requires FirstDifference(x, y, k)
    ensures LessItems(x, y) ==
            if ItemAt(x, k) == Nothing then Fails
            else if ItemAt(y, k) == Nothing then Holds
            else Less(ItemAt(x, k), ItemAt(y, k))
    decreases k
  {
    assert ItemAt(x, 0) == Head(x) && ItemAt(y, 0) == Head(y);
    if k > 0 {
      var x', y' := Tail(x), Tail(y);
      assert forall i: nat :: ItemAt(x', i) == ItemAt(x, i + 1) && ItemAt(y', i) == ItemAt(y, i + 1);
      FirstDifferenceDecides(x', y', k - 1);
    }
  }

  lemma OrderedByFirstDifference(x: seq<Value>, y: seq<Value>, k: nat)
    requires FirstDifference(x, y, k)
    ensures var v, w := ItemAt(x, k), ItemAt(y, k);
            Ordered(Tuple(x), Tuple(y)) <==> v == Nothing || w == Nothing || Ordered(v, w)
  {
    FirstDifferenceDecides(x, y, k);
    FirstDifferenceDecides(y, x, k);
  }

  // Tuples that agree throughout are not less than each other.
  lemma {:induction false} PaddedEqualIsNotLess(x: seq<Value>, y: seq<Value>)
    requires PaddedEqual(x, y)
    ensures LessItems(x, y) == Fails
    decreases x, y
  {
    if x != [] || y != [] {
      assert ItemAt(x, 0) == Head(x) && ItemAt(y, 0) == Head(y);
      assert forall i: nat :: ItemAt(Tail(x), i) == ItemAt(x, i + 1) && ItemAt(Tail(y), i) == ItemAt(y, i + 1);
      PaddedEqualIsNotLess(Tail(x), Tail(y));
    }
  }

  /**
   * Different values that no comparison tells apart: two anonymous refs, two tuples that differ
   * only in trailing Nones, or two tuples whose first differing items are themselves indistinct;
   * and in place of one of the tuples a text or a pair, by its parts.
   */
  ghost predicate Indistinct(a: Value, b: Value)
    decreases Depth(a) + Depth(b), 0
  {
    a != b &&
    if (a.Tuple? || b.Tuple?) && Iterable(a) && Iterable(b) then IndistinctItems(Parts(a), Parts(b))
    else if a.Object? && b.Object? then a.cls == b.cls && IndistinctItems(a.fields, b.fields)
    else a.Ref? && b.Ref? && a.key.Anonymous? && b.key.Anonymous?
  }

  ghost predicate IndistinctItems(x: seq<Value>, y: seq<Value>)
    decreases DepthOf(x) + DepthOf(y), 1
  {
    PaddedEqual(x, y) ||
    exists k: nat :: k < |x| && FirstDifference(x, y, k) && Indistinct(x[k], ItemAt(y, k))
  }

  // The order leaves two different values unordered, both ways answering False, iff they are indistinct.
  lemma {:induction false} SilentIffIndistinct(a: Value, b: Value)
    ensures (a != b && Less(a, b) == Fails && Less(b, a) == Fails) <==> Indistinct(a, b)
    decreases Depth(a) + Depth(b), 0, 0
  {
    if (a.Tuple? || b.Tuple?) && Iterable(a) && Iterable(b) {
      LessByParts(a, b);
      LessByParts(b, a);
      SilentItemsIffIndistinct(Parts(a), Parts(b));
      return;
    }
    match (a, b)
    case (Str(s), Str(t)) => StringLessTotal(s, t);
    case (Ref(k), Ref(l)) =>
      KeyLessTotalUnlessAnonymous(k, l);
      KeyLessIrreflexive(k);
    case (Pair(k, v), Pair(l, w)) =>
      StringLessTotal(k, l);
      StringLessTotal(v, w);
    case (Object(c, x), Object(d, y)) => SilentItemsIffIndistinct(x, y);
    case _ =>
  }

  lemma {:induction false} SilentItemsIffIndistinct(x: seq<Value>, y: seq<Value>)
    ensures (LessItems(x, y) == Fails && LessItems(y, x) == Fails) <==> IndistinctItems(x, y)
    decreases DepthOf(x) + DepthOf(y), 1, |x| + |y|
  {
    if x == [] && y == [] {
      assert PaddedEqual(x, y);
    } else if Head(x) == Head(y) {
      SilentItemsIffIndistinct(Tail(x), Tail(y));
      SkipEqualHeads(x, y);
    } else {
      assert FirstDifference(x, y, 0);
      assert !PaddedEqual(x, y) by { assert ItemAt(x, 0) != ItemAt(y, 0); }
      assert forall k: nat :: FirstDifference(x, y, k) ==> k == 0;
      if x != [] {
        SilentIffIndistinct(x[0], Head(y));
      }
    }
  }

  lemma {:induction false} SkipEqualHeads(x: seq<Value>, y: seq<Value>)
    requires x != [] || y != []
    requires Head(x) == Head(y)
    ensures IndistinctItems(x, y) <==> IndistinctItems(Tail(x), Tail(y))
  {
    var x', y' := Tail(x), Tail(y);
    assert forall k: nat :: ItemAt(x', k) == ItemAt(x, k + 1) && ItemAt(y', k) == ItemAt(y, k + 1);
    assert ItemAt(x, 0) == ItemAt(y, 0);
    if PaddedEqual(x', y') {
      forall k: nat | k < |x| || k < |y| ensures ItemAt(x, k) == ItemAt(y, k) {
        if k > 0 { assert ItemAt(x', k - 1) == ItemAt(y', k - 1); }
      }
    }
    if PaddedEqual(x, y) {
      assert PaddedEqual(x', y');
    }
    forall k: nat | k < |x'| && FirstDifference(x', y', k) && Indistinct(x'[k], ItemAt(y', k))
      ensures FirstDifference(x, y, k + 1) && Indistinct(x[k + 1], ItemAt(y, k + 1))
    {
      forall i: nat | i < k + 1 ensures ItemAt(x, i) == ItemAt(y, i) {
        if i > 0 { assert ItemAt(x', i - 1) == ItemAt(y', i - 1); }
      }
    }
    forall k: nat | k < |x| && FirstDifference(x, y, k) && Indistinct(x[k], ItemAt(y, k))
      ensures k > 0 && FirstDifference(x', y', k - 1) && Indistinct(x'[k - 1], ItemAt(y', k - 1))
    {
    }
  }

  // A short and an explicitly padded tuple: different, yet neither is less.
  lemma PaddingIsSilent()
    ensures var short, padded := Tuple([Str("a")]), Tuple([Str("a"), Nothing]);
            short != padded && Less(short, padded) == Fails && Less(padded, short) == Fails
  {
  }

  // ---------- exactly where the order is transitive ----------

  lemma {:induction false} FirstDifferenceOf(x: seq<Value>, y: seq<Value>) returns (k: nat)
    requires LessItems(x, y) == Holds
    ensures FirstDifference(x, y, k)
    decreases |x| + |y|
  {
    assert ItemAt(x, 0) == Head(x) && ItemAt(y, 0) == Head(y);
    if Head(x) == Head(y) {
      var j := FirstDifferenceOf(Tail(x), Tail(y));
      assert forall i: nat :: ItemAt(Tail(x), i) == ItemAt(x, i + 1) && ItemAt(Tail(y), i) == ItemAt(y, i + 1);
      k := j + 1;
      forall i: nat | i < k ensures ItemAt(x, i) == ItemAt(y, i) {
        if i > 0 { assert ItemAt(Tail(x), i - 1) == ItemAt(Tail(y), i - 1); }
      }
    } else {
      k := 0;
    }
  }

  // Three tuples one above the other differ first at the same place, by items above each other.
  ghost predicate ChainsAt(x: seq<Value>, y: seq<Value>, z: seq<Value>, k: nat) {
    FirstDifference(x, y, k) && FirstDifference(y, z, k) &&
    IsLess(ItemAt(x, k), ItemAt(y, k)) && IsLess(ItemAt(y, k), ItemAt(z, k))
  }

  lemma ItemsChain(x: seq<Value>, y: seq<Value>, z: seq<Value>)
    requires LessItems(x, y) == Holds && LessItems(y, z) == Holds
    ensures LessItems(x, z) == Holds <==>
            forall k: nat :: ChainsAt(x, y, z, k) ==> IsLess(ItemAt(x, k), ItemAt(z, k))
  {
    var i := FirstDifferenceOf(x, y);
    var j := FirstDifferenceOf(y, z);
    FirstDifferenceDecides(x, y, i);
    FirstDifferenceDecides(y, z, j);
    assert forall k: nat :: FirstDifference(x, y, k) ==> k == i;
    if i < j {
      FirstDifferenceDecides(x, z, i);
    } else if j < i {
      FirstDifferenceDecides(x, z, j);
    } else {
      if ItemAt(z, i) != Nothing {
        LessAsymmetric(ItemAt(x, i), ItemAt(y, i));
        assert ChainsAt(x, y, z, i);
      }
      FirstDifferenceDecides(x, z, i);
    }
  }

  // The tuple begins with the characters of the text.
  ghost predicate BeginsWith(y: seq<Value>, s: string) {
    |s| <= |y| && forall i :: 0 <= i < |s| ==> y[i] == Str([s[i]])
  }

  /**
   * Three values, each less than the next, of which the first is not less than the last. It takes a
   * tuple: beside two texts of which one begins with the other, since of texts the shorter is less,
   * but in a tuple what is missing is greatest; or between a text and a plain pair, which do not
   * compare; or three tuples that differ first by three such values.
   */
  ghost predicate Breaks(a: Value, b: Value, c: Value)
    decreases Depth(a) + Depth(b) + Depth(c), 0
  {
    if a.Object? && b.Object? && c.Object? then
      a.cls == b.cls == c.cls && ItemsBreak(a.fields, b.fields, c.fields)
    else if !(Iterable(a) && Iterable(b) && Iterable(c)) || !(a.Tuple? || b.Tuple? || c.Tuple?) then false
    else if a.Str? && c.Str? then c.s < a.s
    else if (a.Str? && c.Pair?) || (a.Pair? && c.Str?) then true
    else if a.Str? && b.Str? then a.s < b.s && BeginsWith(c.items, a.s)
    else if b.Str? && c.Str? then
      b.s < c.s && BeginsWith(a.items, b.s) && LessItems(a.items[|b.s|..], Characters(c.s[|b.s|..])) != Holds
    else ItemsBreak(Parts(a), Parts(b), Parts(c))
  }

  ghost predicate ItemsBreak(x: seq<Value>, y: seq<Value>, z: seq<Value>)
    decreases DepthOf(x) + DepthOf(y) + DepthOf(z), 1
  {
    exists k: nat :: ChainsAt(x, y, z, k) && Breaks(ItemAt(x, k), ItemAt(y, k), ItemAt(z, k))
  }

  // The order is transitive exactly where it does not break.
  lemma {:induction false} TransitiveIff(a: Value, b: Value, c: Value)
    requires IsLess(a, b) && IsLess(b, c)
    ensures IsLess(a, c) <==> !Breaks(a, b, c)
    decreases Depth(a) + Depth(b) + Depth(c), 1
  {
    if a.Object? && b.Object? && c.Object? {
      if a.cls == b.cls == c.cls {
        ItemsTransitiveIff(a.fields, b.fields, c.fields);
      }
    } else if Iterable(a) && Iterable(b) && Iterable(c) && (a.Tuple? || b.Tuple? || c.Tuple?) {
      AroundTuple(a, b, c);
    } else {
      LessTransitive(a, b, c);
    }
  }

  lemma {:induction false} ItemsTransitiveIff(x: seq<Value>, y: seq<Value>, z: seq<Value>)
    requires LessItems(x, y) == Holds && LessItems(y, z) == Holds
    ensures LessItems(x, z) == Holds <==> !ItemsBreak(x, y, z)
    decreases DepthOf(x) + DepthOf(y) + DepthOf(z), 2
  {
    ItemsChain(x, y, z);
    forall k: nat | ChainsAt(x, y, z, k)
      ensures IsLess(ItemAt(x, k), ItemAt(z, k)) <==> !Breaks(ItemAt(x, k), ItemAt(y, k), ItemAt(z, k))
    {
      TransitiveIff(ItemAt(x, k), ItemAt(y, k), ItemAt(z, k));
    }
  }

  lemma {:induction false} AroundTuple(a: Value, b: Value, c: Value)
    requires IsLess(a, b) && IsLess(b, c)
    requires Iterable(a) && Iterable(b) && Iterable(c) && (a.Tuple? || b.Tuple? || c.Tuple?)
    ensures IsLess(a, c) <==> !Breaks(a, b, c)
    decreases Depth(a) + Depth(b) + Depth(c), 0
  {
    LessIsByParts(a, b);
    LessIsByParts(b, c);
    if a.Str? && c.Str? {
      TextsAround(a.s, b.items, c.s);
    } else if a.Str? && b.Str? {
      LessByParts(a, c);
      TextsBelow(a.s, b.s, c.items);
    } else if b.Str? && c.Str? {
      LessByParts(a, c);
      TextsAbove(a.items, b.s, c.s);
    } else if !((a.Str? && c.Pair?) || (a.Pair? && c.Str?)) {
      LessIsByParts(a, c);
      ItemsTransitiveIff(Parts(a), Parts(b), Parts(c));
    }
  }

  // Two plain pairs compare by their parts as well; two texts do not, nor a text and a pair.
  lemma LessIsByParts(a: Value, b: Value)
    requires Iterable(a) && Iterable(b)
    ensures (a.Tuple? || b.Tuple? || (a.Pair? && b.Pair?)) ==> Less(a, b) == LessItems(Parts(a), Parts(b))
    ensures IsLess(a, b) && a.Pair? ==> !b.Str?
    ensures IsLess(a, b) && a.Str? ==> !b.Pair?
  {
    if a.Tuple? || b.Tuple? {
      LessByParts(a, b);
    } else if a.Pair? && b.Pair? {
      var x, y := Parts(a), Parts(b);
      assert Tail(x) == [Str(a.right)] && Tail(y) == [Str(b.right)];
      if a.left == b.left {
        StringLessIrreflexive(a.right);
        LessItemsIrreflexive(x);
        assert LessItems(x, y) == LessItems(Tail(x), Tail(y));
        assert a.right != b.right ==> LessItems(Tail(x), Tail(y)) == Less(Str(a.right), Str(b.right));
      }
    }
  }

  lemma {:induction false} NothingIsNotLess(z: seq<Value>)
    ensures LessItems([], z) == Fails
    decreases |z|
  {
    if Head(z) == Nothing && z != [] {
      NothingIsNotLess(Tail(z));
    }
  }

  lemma HeadOfCharacters(s: string)
    requires s != ""
    ensures Head(Characters(s)) == Str([s[0]]) && Tail(Characters(s)) == Characters(s[1..])
  {
  }

  lemma BeginsWithOneMore(y: seq<Value>, s: string)
    requires s != ""
    ensures BeginsWith(y, s) <==> Head(y) == Str([s[0]]) && BeginsWith(Tail(y), s[1..])
  {
    if Head(y) == Str([s[0]]) && BeginsWith(Tail(y), s[1..]) {
      forall i | 0 <= i < |s| ensures y[i] == Str([s[i]]) {
        if i > 0 { assert Tail(y)[i - 1] == Str([s[1..][i - 1]]); }
      }
    }
  }

  lemma LettersAreOrdered(c: char, d: char)
    ensures StringLess([c], [d]) <==> c < d
    ensures [c] < [d] <==> false
  {
    StringLessIrreflexive([c]);
  }

  lemma PrefixOfTails(s: string, t: string)
    requires s != "" && t != "" && s[0] == t[0]
    ensures s < t <==> s[1..] < t[1..]
  {
    assert s == [s[0]] + s[1..] && t == [t[0]] + t[1..];
    if s[1..] < t[1..] {
      assert t == s + t[1..][|s| - 1..];
    }
  }

  // Two texts below a tuple.
  lemma {:induction false} TextsBelow(s: string, t: string, y: seq<Value>)
    requires StringLess(s, t) && LessItems(Characters(t), y) == Holds
    ensures LessItems(Characters(s), y) == Holds <==> !(s < t && BeginsWith(y, s))
    decreases DepthOf(y), |s| + 1
  {
    if s == "" {
      NothingIsNotLess(y);
    } else {
      HeadOfCharacters(s);
      HeadOfCharacters(t);
      if s[0] == t[0] {
        BeginsWithOneMore(y, s);
        PrefixOfTails(s, t);
        if Head(y) == Str([t[0]]) {
          TextsBelow(s[1..], t[1..], Tail(y));
        }
      } else if !Head(y).Nothing? {
        LettersBelow(s[0], t[0], Head(y));
      }
    }
  }

  lemma {:induction false} LettersBelow(c: char, d: char, v: Value)
    requires c < d && (v == Str([d]) || IsLess(Str([d]), v))
    ensures v != Str([c]) && IsLess(Str([c]), v)
    decreases Depth(v), 0
  {
    LettersAreOrdered(c, d);
    LettersAreOrdered(d, c);
    if v.Str? && v.s != [d] {
      StringLessTransitive([c], [d], v.s);
      StringLessIrreflexive([c]);
    } else if v.Tuple? {
      LessByParts(Str([d]), v);
      LessByParts(Str([c]), v);
      TextsBelow([c], [d], v.items);
    }
  }

  // Two texts above a tuple.
  lemma {:induction false} TextsAbove(y: seq<Value>, s: string, t: string)
    requires StringLess(s, t) && LessItems(y, Characters(s)) == Holds
    ensures LessItems(y, Characters(t)) == Holds <==>
            !(s < t && BeginsWith(y, s) && LessItems(y[|s|..], Characters(t[|s|..])) != Holds)
    decreases DepthOf(y), |s| + 1
  {
    if s == "" {
      assert y[0..] == y && t[0..] == t;
    } else {
      HeadOfCharacters(s);
      HeadOfCharacters(t);
      if s[0] == t[0] {
        BeginsWithOneMore(y, s);
        PrefixOfTails(s, t);
        if Head(y) == Str([s[0]]) {
          TextsAbove(Tail(y), s[1..], t[1..]);
          if BeginsWith(y, s) && s < t {
            assert Tail(y)[|s| - 1..] == y[|s|..] && t[1..][|s| - 1..] == t[|s|..];
          }
        }
      } else {
        LettersAbove(Head(y), s[0], t[0]);
      }
    }
  }

  lemma {:induction false} LettersAbove(v: Value, c: char, d: char)
    requires c < d && (v == Str([c]) || IsLess(v, Str([c])))
    ensures v != Str([d]) && IsLess(v, Str([d]))
    decreases Depth(v), 0
  {
    LettersAreOrdered(c, d);
    LettersAreOrdered(d, c);
    if v.Str? && v.s != [c] {
      StringLessTransitive(v.s, [c], [d]);
      StringLessIrreflexive([d]);
    } else if v.Tuple? {
      LessByParts(v, Str([c]));
      LessByParts(v, Str([d]));
      TextsAbove(v.items, [c], [d]);
    }
  }

  // A tuple between two texts.
  lemma {:induction false} TextsAround(s: string, y: seq<Value>, t: string)
    requires LessItems(Characters(s), y) == Holds && LessItems(y, Characters(t)) == Holds
    ensures StringLess(s, t) <==> !(t < s)
    decreases DepthOf(y), |s| + 1
  {
    if s == "" {
      NothingIsNotLess(y);
    } else if t != "" {
      HeadOfCharacters(s);
      HeadOfCharacters(t);
      if s[0] == t[0] {
        PrefixOfTails(t, s);
        if Head(y) == Str([s[0]]) {
          TextsAround(s[1..], Tail(y), t[1..]);
        } else {
          LessAsymmetric(Str([s[0]]), Head(y));
        }
      } else {
        LettersAround(s[0], Head(y), t[0]);
      }
    }
  }

  lemma {:induction false} LettersAround(c: char, v: Value, d: char)
    requires c != d && (v == Str([c]) || IsLess(Str([c]), v)) && (v == Str([d]) || IsLess(v, Str([d])))
    ensures c < d
    decreases Depth(v), 0
  {
    LettersAreOrdered(c, d);
    if v.Str? && v.s != [c] && v.s != [d] {
      StringLessTransitive([c], v.s, [d]);
    } else if v.Tuple? {
      LessByParts(Str([c]), v);
      LessByParts(v, Str([d]));
      TextsAround([c], v.items, [d]);
    }
  }

  // In the presence of tuples two ordered texts keep their order exactly if the lesser is no prefix
  // of the greater: against tuples above them,
  lemma TextsKeepOrderBelowIff(s: string, t: string)
    requires StringLess(s, t)
    ensures (forall y :: IsLess(Str(t), Tuple(y)) ==> IsLess(Str(s), Tuple(y))) <==> !(s <= t)
  {
    PrefixIsProper(s, t);
    if s <= t {
      PrefixLosesOrder(s, t);
    }
    forall y | IsLess(Str(t), Tuple(y)) && !(s <= t) ensures IsLess(Str(s), Tuple(y)) {
      LessByParts(Str(t), Tuple(y));
      LessByParts(Str(s), Tuple(y));
      TextsBelow(s, t, y);
    }
  }

  // against tuples below them,
  lemma TextsKeepOrderAboveIff(s: string, t: string)
    requires StringLess(s, t)
    ensures (forall y :: IsLess(Tuple(y), Str(s)) ==> IsLess(Tuple(y), Str(t))) <==> !(s <= t)
  {
    PrefixIsProper(s, t);
    if s <= t {
      PrefixLosesOrder(s, t);
    }
    forall y | IsLess(Tuple(y), Str(s)) && !(s <= t) ensures IsLess(Tuple(y), Str(t)) {
      LessByParts(Tuple(y), Str(t));
      LessByParts(Tuple(y), Str(s));
      TextsAbove(y, s, t);
    }
  }

  // and where a tuple stands between two texts, they are in that order exactly if the upper one is no
  // proper prefix of the lower.
  lemma TextsKeepOrderAroundIff(s: string, t: string)
    ensures (forall y :: IsLess(Str(s), Tuple(y)) && IsLess(Tuple(y), Str(t)) ==> StringLess(s, t)) <==> !(t < s)
  {
    if t < s {
      var y := PrefixSurrounds(s, t);
    } else {
      forall y | IsLess(Str(s), Tuple(y)) && IsLess(Tuple(y), Str(t)) ensures StringLess(s, t) {
        LessByParts(Str(s), Tuple(y));
        LessByParts(Tuple(y), Str(t));
        TextsAround(s, y, t);
      }
    }
  }

  lemma PrefixIsProper(s: string, t: string)
    requires StringLess(s, t)
    ensures s <= t <==> s < t
  {
    StringLessIrreflexive(s);
    assert t[..|t|] == t;
  }

  // The characters of a prefix, and of the text it begins, are tuples that lose the order.
  lemma PrefixLosesOrder(s: string, t: string)
    requires s < t
    ensures IsLess(Str(t), Tuple(Characters(s))) && !IsLess(Str(s), Tuple(Characters(s)))
    ensures IsLess(Tuple(Characters(t)), Str(s)) && !IsLess(Tuple(Characters(t)), Str(t))
  {
    var x, y := Characters(s), Characters(t);
    LessByParts(Str(t), Tuple(x));
    LessByParts(Str(s), Tuple(x));
    assert forall i: nat :: i < |s| ==> ItemAt(y, i) == y[i] == Str([s[i]]) == ItemAt(x, i);
    FirstDifferenceDecides(y, x, |s|);
    LessItemsIrreflexive(x);
    LessItemsIrreflexive(y);
  }

  lemma PrefixSurrounds(s: string, t: string) returns (y: seq<Value>)
    requires t < s
    ensures IsLess(Str(s), Tuple(y)) && IsLess(Tuple(y), Str(t)) && !StringLess(s, t)
  {
    var c := s[|t|];
    var longer := Str([c, '-']);
    LongerIsGreater(c, '-');
    AboveText(s, t, longer);
    BelowText(t, longer);
    PrefixIsLess(t, s);
    y := Characters(t) + [longer];
  }

  lemma AboveText(s: string, t: string, v: Value)
    requires t < s && v != Nothing && IsLess(Str([s[|t|]]), v)
    ensures IsLess(Str(s), Tuple(Characters(t) + [v]))
  {
    var x, y, z := Characters(s), Characters(t) + [v], Characters(t);
    LessByParts(Str(s), Tuple(y));
    LessIrreflexive(v);
    assert forall i :: 0 <= i < |t| ==> x[i] == z[i];
    PartAfter(x, y, |t|);
  }

  lemma BelowText(t: string, v: Value)
    requires v != Nothing
    ensures IsLess(Tuple(Characters(t) + [v]), Str(t))
  {
    LessByParts(Tuple(Characters(t) + [v]), Str(t));
    PartAfter(Characters(t) + [v], Characters(t), |t|);
  }

  // Tuples that agree so far are decided by the next item of both, or of the one that has it.
  lemma PartAfter(x: seq<Value>, y: seq<Value>, k: nat)
    requires k < |x| && k <= |y| && forall i :: 0 <= i < k ==> x[i] == y[i]
    requires x[k] != Nothing && (k < |y| ==> y[k] != Nothing && x[k] != y[k])
    ensures LessItems(x, y) == if k < |y| then Less(x[k], y[k]) else Holds
  {
    assert forall i: nat :: i < k ==> ItemAt(x, i) == x[i] == y[i] == ItemAt(y, i);
    FirstDifferenceDecides(x, y, k);
  }

  lemma LongerIsGreater(c: char, d: char)
    ensures StringLess([c], [c, d])
  {
    assert [c][1..] == "" && [c, d][1..] == [d];
  }

  lemma {:induction false} PrefixIsLess(s: string, t: string)
    requires s < t
    ensures StringLess(s, t) && !StringLess(t, s)
  {
    if s != "" {
      PrefixOfTails(s, t);
      PrefixIsLess(s[1..], t[1..]);
    }
  }
}
