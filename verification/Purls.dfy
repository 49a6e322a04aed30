/** Package URLs and dictionaries in comparable tuples. */
module Purls {
  import opened BomRefs
  import opened Compare
  import opened SortedSets
  import opened ModelSets
  import Text

  datatype Item = Item(key: string, value: string) {
    function Comparable(): Value {
      Pair(key, value)
    }
  }

  // A dictionary, with its items in the order in which they were put in.
  type Dict = d: seq<Item> | forall i, j :: 0 <= i < j < |d| ==> d[i].key != d[j].key witness []

  ghost predicate SameDict(d: Dict, e: Dict) {
    forall x: Item :: x in d <==> x in e
  }

  function Comparables(d: seq<Item>): seq<Value> {
    seq(|d|, i requires 0 <= i < |d| => d[i].Comparable())
  }

  /** `ComparableDict`: no two items are equal, so that sorting them lists them as a set. */
  function ComparableDict(d: Dict): Value {
    Tuple(SortedSet(Comparables(d)))
  }

  lemma ComparablesHold(d: seq<Item>)
    ensures AllConform(Comparables(d), PairShape)
    ensures forall x: Item :: x in d <==> x.Comparable() in Comparables(d)
  {
    var c := Comparables(d);
    forall x: Item ensures x in d <==> x.Comparable() in c {
      if x in d {
        var i :| 0 <= i < |d| && d[i] == x;
        assert c[i] == x.Comparable();
      }
      if x.Comparable() in c {
        var i :| 0 <= i < |c| && c[i] == x.Comparable();
        assert d[i] == x;
      }
    }
  }

  // Sorting keeps the items, and nothing of the order in which they were put in.
  lemma EqualIffSameItems(d: Dict, e: Dict)
    ensures ComparableDict(d) == ComparableDict(e) <==> SameDict(d, e)
  {
    var c, f := Comparables(d), Comparables(e);
    ComparablesHold(d);
    ComparablesHold(e);
    if ComparableDict(d) == ComparableDict(e) {
      AddAllKeeps(IsLess, [], c);
      AddAllKeeps(IsLess, [], f);
      assert SortedSet(c) == SortedSet(f);
      forall x: Item ensures x in d <==> x in e {
        assert x.Comparable() in c <==> x.Comparable() in SortedSet(c);
      }
    }
    if SameDict(d, e) {
      forall v ensures v in c <==> v in f {
        if v in c {
          var i :| 0 <= i < |c| && c[i] == v;
          assert d[i] in e;
        }
        if v in f {
          var i :| 0 <= i < |f| && f[i] == v;
          assert e[i] in d;
        }
      }
      assert Elements(c) == Elements(f);
      InsertionOrderDoesNotShow(c, f, PairShape);
    }
  }

  // Comparable dictionaries are equal iff the dictionaries are, whatever the order of their keys;
  // unequal ones are ordered one way.
  lemma DictsCompareByItems(d: Dict, e: Dict)
    ensures ComparableDict(d) == ComparableDict(e) <==> SameDict(d, e)
    ensures Conforms(ComparableDict(d), ListShape(PairShape))
    ensures Ordered(ComparableDict(d), ComparableDict(e))
  {
    EqualIffSameItems(d, e);
    ComparablesHold(d);
    ComparablesHold(e);
    InsertionOrderDoesNotShow(Comparables(d), Comparables(d), PairShape);
    InsertionOrderDoesNotShow(Comparables(e), Comparables(e), PairShape);
    TotalOnShape(ComparableDict(d), ComparableDict(e), ListShape(PairShape));
  }

  datatype Qualifiers = NoQualifiers | Packed(text: string) | Unpacked(items: Dict)

  datatype PackageUrl = PackageUrl(
    kind: string, namespace: Option<string>, name: string, version: Option<string>,
    qualifiers: Qualifiers, subpath: Option<string>)

  function Textual(s: Option<string>): Value {
    if s.Some? then Str(s.value) else Nothing
  }

  function QualifiersValue(q: Qualifiers): Value {
    match q
    case NoQualifiers => Nothing
    case Packed(text) => Str(text)
    case Unpacked(items) => ComparableDict(items)
  }

  /** `ComparablePackageURL` */
  function Comparable(p: PackageUrl): Value {
    Tuple([Str(p.kind), Textual(p.namespace), Textual(p.version), QualifiersValue(p.qualifiers), Textual(p.subpath)])
  }

  ghost predicate SameQualifiers(q: Qualifiers, r: Qualifiers) {
    q == r || (q.Unpacked? && r.Unpacked? && SameDict(q.items, r.items))
  }

  lemma QualifiersCompare(q: Qualifiers, r: Qualifiers)
    ensures QualifiersValue(q) == QualifiersValue(r) <==> SameQualifiers(q, r)
  {
    if q.Unpacked? && r.Unpacked? {
      DictsCompareByItems(q.items, r.items);
    }
  }

  // The name is missing from the tuple: two package URLs compare as equal iff they agree in
  // everything else, whatever their names.
  lemma EqualIffAgreeButForName(p: PackageUrl, q: PackageUrl)
    ensures Comparable(p) == Comparable(q) <==>
            p.(name := q.name, qualifiers := q.qualifiers) == q && SameQualifiers(p.qualifiers, q.qualifiers)
  {
    QualifiersCompare(p.qualifiers, q.qualifiers);
    var x, y := Comparable(p).items, Comparable(q).items;
    if x == y {
      assert x[0] == y[0] && x[1] == y[1] && x[2] == y[2] && x[3] == y[3] && x[4] == y[4];
    }
  }

  lemma NamesAreNotCompared()
    ensures exists p: PackageUrl, q: PackageUrl :: p.name != q.name && Comparable(p) == Comparable(q)
  {
    var p := PackageUrl("pypi", None, "a", None, NoQualifiers, None);
    assert Comparable(p) == Comparable(p.(name := "b"));
  }

  // The shape of the tuple, given which form the qualifiers take.
  function UrlShape(packed: bool): Shape {
    var qualifiers := if packed then StrShape else ListShape(PairShape);
    RecordShape([Slot(StrShape, false), Slot(StrShape, true), Slot(StrShape, true),
                 Slot(qualifiers, true), Slot(StrShape, true)])
  }

  lemma UrlConforms(p: PackageUrl, packed: bool)
    requires if packed then !p.qualifiers.Unpacked? else !p.qualifiers.Packed?
    ensures Conforms(Comparable(p), UrlShape(packed))
  {
    if p.qualifiers.Unpacked? {
      DictsCompareByItems(p.qualifiers.items, p.qualifiers.items);
    }
    var items, slots := Comparable(p).items, UrlShape(packed).slots;
    forall i | 0 <= i < |items|
      ensures (items[i].Nothing? && slots[i].optional) || Conforms(items[i], slots[i].shape)
    {
    }
    assert Fill(items, slots);
  }

  // Text meets a dictionary, both empty or both not.
  ghost predicate FormsClash(q: Qualifiers, r: Qualifiers) {
    match (q, r)
    case (Packed(text), Unpacked(items)) => text == "" <==> items == []
    case (Unpacked(items), Packed(text)) => text == "" <==> items == []
    case _ => false
  }

  lemma ComparableDictIsEmptyIff(d: Dict)
    ensures ComparableDict(d).items == [] <==> d == []
    ensures d != [] ==> Head(ComparableDict(d).items).Pair?
  {
    ComparablesHold(d);
    AddAllKeeps(IsLess, [], Comparables(d));
    if d != [] {
      assert d[0] in d;
      assert d[0].Comparable() in SortedSet(Comparables(d));
      DictsCompareByItems(d, d);
    }
  }

  // A text and a dictionary are ordered, the empty one being greater, unless both are empty, where
  // neither is less, or neither is, where a character meets a pair and the comparison raises.
  lemma TextAgainstDict(text: string, d: Dict)
    ensures Ordered(Str(text), ComparableDict(d)) <==> !(text == "" <==> d == [])
    ensures IsLess(Str(text), ComparableDict(d)) <==> text != "" && d == []
    ensures IsLess(ComparableDict(d), Str(text)) <==> text == "" && d != []
  {
    var a, b := Str(text), ComparableDict(d);
    ComparableDictIsEmptyIff(d);
    LessByParts(a, b);
    LessByParts(b, a);
  }

  predicate SameUpToVersion(p: PackageUrl, q: PackageUrl) {
    p.kind == q.kind && p.namespace == q.namespace && p.version == q.version
  }

  // The place of the first field in which tuples across the two forms differ.
  function DifferingField(p: PackageUrl, q: PackageUrl): (k: nat)
    ensures k <= 3 && (k == 3 <==> SameUpToVersion(p, q))
  {
    if p.kind != q.kind then 0 else if p.namespace != q.namespace then 1
    else if p.version != q.version then 2 else 3
  }

  lemma DiffersThere(p: PackageUrl, q: PackageUrl)
    requires p.qualifiers.Packed? && q.qualifiers.Unpacked?
    ensures FirstDifference(Comparable(p).items, Comparable(q).items, DifferingField(p, q))
  {
    var x, y := Comparable(p).items, Comparable(q).items;
    assert forall i: nat :: i < 5 ==> ItemAt(x, i) == x[i] && ItemAt(y, i) == y[i];
    assert (x[0] == y[0] <==> p.kind == q.kind) && (x[1] == y[1] <==> p.namespace == q.namespace);
    assert (x[2] == y[2] <==> p.version == q.version) && x[3] != y[3];
  }

  lemma AcrossForms(p: PackageUrl, q: PackageUrl)
    requires p.qualifiers.Packed? && q.qualifiers.Unpacked?
    ensures Ordered(Comparable(p), Comparable(q)) <==>
            !(SameUpToVersion(p, q) && FormsClash(p.qualifiers, q.qualifiers))
  {
    var x, y, k := Comparable(p).items, Comparable(q).items, DifferingField(p, q);
    DiffersThere(p, q);
    OrderedByFirstDifference(x, y, k);
    if k == 3 {
      TextAgainstDict(p.qualifiers.text, q.qualifiers.items);
    } else if x[k].Str? && y[k].Str? {
      Text.StringLessTotal(x[k].s, y[k].s);
    }
  }

  // Package URLs are ordered one way, up to equality of their tuples, unless the comparison reaches
  // qualifiers in text on one side and in a dictionary on the other that are both empty or both not.
  lemma OrderedIffFormsDoNotClash(p: PackageUrl, q: PackageUrl)
    ensures Ordered(Comparable(p), Comparable(q)) <==>
            !(SameUpToVersion(p, q) && FormsClash(p.qualifiers, q.qualifiers))
  {
    if p.qualifiers.Packed? && q.qualifiers.Unpacked? {
      AcrossForms(p, q);
    } else if p.qualifiers.Unpacked? && q.qualifiers.Packed? {
      AcrossForms(q, p);
    } else {
      var packed := p.qualifiers.Packed? || q.qualifiers.Packed?;
      UrlConforms(p, packed);
      UrlConforms(q, packed);
      TotalOnShape(Comparable(p), Comparable(q), UrlShape(packed));
    }
  }

  // An empty text below a longer one below an empty dictionary, or a dictionary with items below an
  // empty text below a longer one.
  ghost predicate FormsBreak(a: Qualifiers, b: Qualifiers, c: Qualifiers) {
    (a == Packed("") && b.Packed? && b.text != "" && c == Unpacked([])) ||
    (a.Unpacked? && a.items != [] && b == Packed("") && c.Packed? && c.text != "")
  }

  lemma FormsTransitiveIff(a: Qualifiers, b: Qualifiers, c: Qualifiers)
    requires IsLess(QualifiersValue(a), QualifiersValue(b)) && IsLess(QualifiersValue(b), QualifiersValue(c))
    ensures IsLess(QualifiersValue(a), QualifiersValue(c)) <==> !FormsBreak(a, b, c)
  {
    if a.Packed? && b.Packed? && c.Packed? {
      Text.StringLessTransitive(a.text, b.text, c.text);
    } else if a.Unpacked? && b.Unpacked? && c.Unpacked? {
      DictsAreTransitive(a.items, b.items, c.items);
    } else {
      FormsAcross(a, b);
      FormsAcross(b, c);
      FormsAcross(a, c);
    }
  }

  lemma DictsAreTransitive(a: Dict, b: Dict, c: Dict)
    requires IsLess(ComparableDict(a), ComparableDict(b)) && IsLess(ComparableDict(b), ComparableDict(c))
    ensures IsLess(ComparableDict(a), ComparableDict(c))
  {
    DictsCompareByItems(a, b);
    DictsCompareByItems(b, c);
    DictsCompareByItems(c, a);
    TotalOnShape(ComparableDict(a), ComparableDict(b), ListShape(PairShape));
    TotalOnShape(ComparableDict(b), ComparableDict(c), ListShape(PairShape));
    LessTransitive(ComparableDict(a), ComparableDict(b), ComparableDict(c));
  }

  // What a comparison of qualifiers says about which of them are empty.
  lemma FormsAcross(q: Qualifiers, r: Qualifiers)
    ensures var less := IsLess(QualifiersValue(q), QualifiersValue(r));
            match (q, r)
            case (Packed(text), Unpacked(items)) => less <==> text != "" && items == []
            case (Unpacked(items), Packed(text)) => less <==> items != [] && text == ""
            case (Packed(_), Packed(text)) => less ==> text != ""
            case (Unpacked(items), Unpacked(_)) => less ==> items != []
            case _ => !less
  {
    match (q, r)
    case (Packed(text), Unpacked(items)) => TextAgainstDict(text, items);
    case (Unpacked(items), Packed(text)) => TextAgainstDict(text, items);
    case (Unpacked(items), Unpacked(others)) =>
      ComparableDictIsEmptyIff(items);
      NothingIsNotLess(ComparableDict(others).items);
    case _ =>
  }

  // Of three package URLs, each less than the next, the first is less than the last exactly unless
  // they agree up to the version and their qualifiers break the order.
  lemma UrlsTransitiveIff(p: PackageUrl, q: PackageUrl, r: PackageUrl)
    requires IsLess(Comparable(p), Comparable(q)) && IsLess(Comparable(q), Comparable(r))
    ensures IsLess(Comparable(p), Comparable(r)) <==>
            !(SameUpToVersion(p, q) && SameUpToVersion(q, r) &&
              FormsBreak(p.qualifiers, q.qualifiers, r.qualifiers))
  {
    var x, y, z := Comparable(p).items, Comparable(q).items, Comparable(r).items;
    ItemsChain(x, y, z);
    if SameUpToVersion(p, q) && SameUpToVersion(q, r) && FormsBreak(p.qualifiers, q.qualifiers, r.qualifiers) {
      BreakingFormsChain(p, q, r);
      FormsTransitiveIff(p.qualifiers, q.qualifiers, r.qualifiers);
    }
    forall k: nat | ChainsAt(x, y, z, k)
      ensures IsLess(ItemAt(x, k), ItemAt(z, k)) <==>
              !(k == 3 && FormsBreak(p.qualifiers, q.qualifiers, r.qualifiers))
      ensures k == 3 ==> SameUpToVersion(p, q) && SameUpToVersion(q, r)
    {
      ChainInUrl(p, q, r, k);
    }
  }

  lemma ChainInUrl(p: PackageUrl, q: PackageUrl, r: PackageUrl, k: nat)
    requires ChainsAt(Comparable(p).items, Comparable(q).items, Comparable(r).items, k)
    ensures IsLess(ItemAt(Comparable(p).items, k), ItemAt(Comparable(r).items, k)) <==>
            !(k == 3 && FormsBreak(p.qualifiers, q.qualifiers, r.qualifiers))
    ensures k == 3 ==> SameUpToVersion(p, q) && SameUpToVersion(q, r)
  {
    var x, y, z := Comparable(p).items, Comparable(q).items, Comparable(r).items;
    assert k < 5;
    if k == 3 {
      assert forall i :: 0 <= i < 3 ==> x[i] == ItemAt(x, i) == ItemAt(y, i) == y[i] == ItemAt(z, i) == z[i];
      assert x[0] == y[0] == z[0] && x[1] == y[1] == z[1] && x[2] == y[2] == z[2];
      FormsTransitiveIff(p.qualifiers, q.qualifiers, r.qualifiers);
    } else {
      assert x[k].Str? && y[k].Str? && z[k].Str?;
      Text.StringLessTransitive(x[k].s, y[k].s, z[k].s);
    }
  }

  lemma BreakingFormsChain(p: PackageUrl, q: PackageUrl, r: PackageUrl)
    requires IsLess(Comparable(p), Comparable(q)) && IsLess(Comparable(q), Comparable(r))
    requires SameUpToVersion(p, q) && SameUpToVersion(q, r) && FormsBreak(p.qualifiers, q.qualifiers, r.qualifiers)
    ensures ChainsAt(Comparable(p).items, Comparable(q).items, Comparable(r).items, 3)
  {
    QualifiersDecide(p, q);
    QualifiersDecide(q, r);
  }

  lemma QualifiersDecide(p: PackageUrl, q: PackageUrl)
    requires SameUpToVersion(p, q)
    requires p.qualifiers != q.qualifiers && p.qualifiers != NoQualifiers && q.qualifiers != NoQualifiers
    requires !(p.qualifiers.Unpacked? && q.qualifiers.Unpacked?)
    ensures FirstDifference(Comparable(p).items, Comparable(q).items, 3)
    ensures ItemAt(Comparable(p).items, 3) == QualifiersValue(p.qualifiers)
    ensures ItemAt(Comparable(q).items, 3) == QualifiersValue(q.qualifiers)
    ensures Less(Comparable(p), Comparable(q)) == Less(QualifiersValue(p.qualifiers), QualifiersValue(q.qualifiers))
  {
    var x, y := Comparable(p).items, Comparable(q).items;
    assert forall i: nat :: i < 5 ==> ItemAt(x, i) == x[i] && ItemAt(y, i) == y[i];
    FirstDifferenceDecides(x, y, 3);
  }

  // So package URLs alike but for their qualifiers are not in a transitive order.
  lemma UrlsBreakTransitivity(p: PackageUrl, text: string)
    requires text != ""
    ensures var empty, q := p.(qualifiers := Packed("")), p.(qualifiers := Packed(text));
            var r := p.(qualifiers := Unpacked([]));
            IsLess(Comparable(empty), Comparable(q)) && IsLess(Comparable(q), Comparable(r)) &&
            !IsLess(Comparable(empty), Comparable(r))
  {
    var empty, q := p.(qualifiers := Packed("")), p.(qualifiers := Packed(text));
    var r := p.(qualifiers := Unpacked([]));
    QualifiersDecide(empty, q);
    QualifiersDecide(q, r);
    QualifiersDecide(empty, r);
    TextAgainstDict(text, []);
    TextAgainstDict("", []);
  }

  // ---------- in which order fields decide ----------

  // The items of a dictionary are compared in the order of their keys.
  lemma ItemsAscend(d: Dict, i: nat, j: nat)
    requires i < j < |ComparableDict(d).items|
    ensures var items := ComparableDict(d).items;
            items[i].Pair? && items[j].Pair? && Text.StringLess(items[i].left, items[j].left)
  {
    var xs := Comparables(d);
    ComparablesHold(d);
    ConformingIsTotal(xs, PairShape);
    FromSeqSorted(IsLess, xs);
    var a, b := SortedSet(xs)[i], SortedSet(xs)[j];
    assert IsLess(a, b) && a in Elements(SortedSet(xs)) && b in Elements(SortedSet(xs));
    assert a in xs && b in xs;
    var m :| 0 <= m < |xs| && xs[m] == a;
    var n :| 0 <= n < |xs| && xs[n] == b;
    LessIrreflexive(a);
    assert m != n && d[m].key != d[n].key;
    SimpleValuesCompare(a, b);
  }

  // Types decide first, then namespaces and versions, of which a missing one is greatest.
  lemma UrlsCompareInOrder(p: PackageUrl, q: PackageUrl)
    ensures p.kind != q.kind ==> (IsLess(Comparable(p), Comparable(q)) <==> Text.StringLess(p.kind, q.kind))
    ensures p.kind == q.kind && p.namespace != q.namespace ==>
              (IsLess(Comparable(p), Comparable(q)) <==> MissingIsGreatest(p.namespace, q.namespace))
    ensures p.kind == q.kind && p.namespace == q.namespace && p.version != q.version ==>
              (IsLess(Comparable(p), Comparable(q)) <==> MissingIsGreatest(p.version, q.version))
    ensures SameUpToVersion(p, q) && p.qualifiers == q.qualifiers && p.subpath != q.subpath ==>
              (IsLess(Comparable(p), Comparable(q)) <==> MissingIsGreatest(p.subpath, q.subpath))
  {
    if p.kind != q.kind {
      FieldDecides(p, q, 0);
    } else if p.namespace != q.namespace {
      FieldDecides(p, q, 1);
    } else if p.version != q.version {
      FieldDecides(p, q, 2);
    } else if p.qualifiers == q.qualifiers && p.subpath != q.subpath {
      FieldDecides(p, q, 4);
    }
  }

  lemma FieldDecides(p: PackageUrl, q: PackageUrl, k: nat)
    requires k < 5 && Comparable(p).items[k] != Comparable(q).items[k]
    requires forall i :: 0 <= i < k ==> Comparable(p).items[i] == Comparable(q).items[i]
    ensures var v, w := Comparable(p).items[k], Comparable(q).items[k];
            IsLess(Comparable(p), Comparable(q)) <==> v != Nothing && (w == Nothing || IsLess(v, w))
  {
    var x, y := Comparable(p).items, Comparable(q).items;
    assert forall i: nat :: i < 5 ==> ItemAt(x, i) == x[i] && ItemAt(y, i) == y[i];
    FirstDifferenceDecides(x, y, k);
  }

  predicate MissingIsGreatest(s: Option<string>, t: Option<string>) {
    s.Some? && (t.Some? ==> Text.StringLess(s.value, t.value))
  }
}
