/** License repositories, and how JSON spells them. */
module Licenses {
  import opened BomRefs
  import opened Boms
  import opened Compare
  import opened Components
  import opened Dependencies
  import opened Graph
  import opened ModelSets
  import opened SortedSets
  import opened Walks

  // acknowledgement, value, bom-ref
  const EXPRESSION_SLOTS: seq<Slot> := [Slot(StrShape, true), Slot(StrShape, false), Slot(StrShape, true)]

  const URI_SHAPE := ObjectShape(Other("XsUri"), [Slot(StrShape, false)])
  const TEXT_SHAPE := ObjectShape(Other("AttachedText"),
                                  [Slot(StrShape, true), Slot(StrShape, true), Slot(StrShape, false)])
  const PROPERTY_SHAPE := ObjectShape(Other("Property"), [Slot(StrShape, false), Slot(StrShape, true)])

  // acknowledgement, id, name, url, text, bom-ref, properties
  const DISJUNCTIVE_SLOTS: seq<Slot> := [
    Slot(StrShape, true), Slot(StrShape, true), Slot(StrShape, true), Slot(URI_SHAPE, true),
    Slot(TEXT_SHAPE, true), Slot(StrShape, true), Slot(ListShape(PROPERTY_SHAPE), false)]

  const LICENSE_SHAPE := LicenseShape(EXPRESSION_SLOTS, DISJUNCTIVE_SLOTS)

  predicate IsExpression(l: Value) {
    l.Object? && l.cls == LicenseExpression
  }

  predicate IsDisjunctive(l: Value) {
    l.Object? && l.cls == DisjunctiveLicense
  }

  predicate IsLicense(l: Value) {
    IsExpression(l) || IsDisjunctive(l)
  }

  // The listing of a sorted set of licenses.
  ghost predicate IsRepository(repo: seq<Value>) {
    Sorted(IsLess, repo) && forall l <- repo :: IsLicense(l)
  }

  // A repository filled with any licenses is one.
  lemma LicensesMakeARepository(ls: seq<Value>)
    requires AllConform(ls, LICENSE_SHAPE)
    ensures IsRepository(SortedSet(ls)) && Elements(SortedSet(ls)) == Elements(ls)
  {
    ConformingIsTotal(ls, LICENSE_SHAPE);
    FromSeqSorted(IsLess, ls);
    forall l <- SortedSet(ls) ensures IsLicense(l) {
      assert l in Elements(SortedSet(ls)) && Conforms(l, LICENSE_SHAPE);
    }
  }

  datatype JsonLicense = ExpressionItem(expression: Value) | LicenseItem(license: Value) | UnknownItem

  function Disjunctives(repo: seq<Value>): seq<JsonLicense> {
    if repo == [] then []
    else (if IsDisjunctive(repo[0]) then [LicenseItem(repo[0])] else []) + Disjunctives(repo[1..])
  }

  function FirstExpression(repo: seq<Value>): Option<Value> {
    if repo == [] then None
    else if IsExpression(repo[0]) then Some(repo[0])
    else FirstExpression(repo[1..])
  }

  /** `json_normalize` */
  function Normalize(repo: seq<Value>): Option<seq<JsonLicense>> {
    if repo == [] then None
    else
      var expression := FirstExpression(repo);
      if expression.Some? then Some([ExpressionItem(expression.value)]) else Some(Disjunctives(repo))
  }

  function ItemValue(item: JsonLicense): Value
    requires !item.UnknownItem?
  {
    if item.LicenseItem? then item.license else item.expression
  }

  // The repository that a list of items spells, unless one of them is of an unknown kind.
  function Denormalized(items: seq<JsonLicense>): Option<seq<Value>> {
    if forall item <- items :: !item.UnknownItem? then
      Some(SortedSet(seq(|items|, i requires 0 <= i < |items| => assert items[i] in items; ItemValue(items[i]))))
    else None
  }

  /** `json_denormalize` */
  method Denormalize(items: seq<JsonLicense>) returns (repo: Option<seq<Value>>)
    ensures repo == Denormalized(items)
  {
    var added: seq<Value> := [];
    ghost var values: seq<Value> := [];
    for i := 0 to |items|
      invariant forall j :: 0 <= j < i ==> !items[j].UnknownItem?
      invariant |values| == i && forall j :: 0 <= j < i ==> values[j] == ItemValue(items[j])
      invariant added == SortedSet(values)
    {
      match items[i]
      case UnknownItem =>
        assert items[i] in items;
        return None;
      case _ =>
        var value := ItemValue(items[i]);
        assert (values + [value])[..i] == values;
        values := values + [value];
        added := Add(IsLess, added, value);
    }
    assert values == seq(|items|, i requires 0 <= i < |items| => assert items[i] in items; ItemValue(items[i]));
    repo := Some(added);
  }

  // An item of an unknown kind makes the whole list illegible; of others each license is listed once.
  lemma DenormalizedIs(items: seq<JsonLicense>)
    ensures Denormalized(items).None? <==> UnknownItem in items
    ensures Denormalized(items).Some? ==>
              Distinct(Denormalized(items).value) &&
              forall l :: l in Denormalized(items).value <==> ExpressionItem(l) in items || LicenseItem(l) in items
  {
    if UnknownItem !in items {
      var values := seq(|items|, i requires 0 <= i < |items| => assert items[i] in items; ItemValue(items[i]));
      AddAllKeeps(IsLess, [], values);
      forall l ensures l in values <==> ExpressionItem(l) in items || LicenseItem(l) in items {
        if ExpressionItem(l) in items || LicenseItem(l) in items {
          var i :| 0 <= i < |items| && (items[i] == ExpressionItem(l) || items[i] == LicenseItem(l));
          assert values[i] == l;
        }
      }
    }
  }

  // Written is the first expression alone, or each license that is not one.
  lemma NormalizedForm(repo: seq<Value>)
    ensures Normalize(repo).None? <==> repo == []
    ensures forall i ::
              0 <= i < |repo| && IsExpression(repo[i]) && (forall j :: 0 <= j < i ==> !IsExpression(repo[j])) ==>
              Normalize(repo) == Some([ExpressionItem(repo[i])])
    ensures repo != [] && (forall l <- repo :: IsDisjunctive(l)) ==>
              |Normalize(repo).value| == |repo| &&
              forall i :: 0 <= i < |repo| ==> Normalize(repo).value[i] == LicenseItem(repo[i])
  {
    forall i | 0 <= i < |repo| && IsExpression(repo[i]) && (forall j :: 0 <= j < i ==> !IsExpression(repo[j]))
      ensures FirstExpression(repo) == Some(repo[i])
    {
      FirstExpressionIs(repo, i);
    }
    if forall l <- repo :: IsDisjunctive(l) {
      DisjunctivesAreAll(repo);
    }
  }

  lemma {:induction false} FirstExpressionIs(repo: seq<Value>, i: nat)
    requires i < |repo| && IsExpression(repo[i]) && forall j :: 0 <= j < i ==> !IsExpression(repo[j])
    ensures FirstExpression(repo) == Some(repo[i])
  {
    if i > 0 {
      assert !IsExpression(repo[0]);
      FirstExpressionIs(repo[1..], i - 1);
    }
  }

  // ---------- what is kept ----------

  // Expressions come first: if there is one, the least license is one, and it is the one found.
  lemma LeastExpressionIsFound(repo: seq<Value>)
    requires IsRepository(repo) && exists l <- repo :: IsExpression(l)
    ensures IsExpression(repo[0]) && FirstExpression(repo) == Some(repo[0])
  {
  }

  lemma {:induction false} DisjunctivesAreAll(repo: seq<Value>)
    requires forall l <- repo :: IsDisjunctive(l)
    ensures FirstExpression(repo) == None
    ensures |Disjunctives(repo)| == |repo|
    ensures forall i :: 0 <= i < |repo| ==> Disjunctives(repo)[i] == LicenseItem(repo[i])
  {
    if repo != [] {
      assert repo[0] in repo;
      DisjunctivesAreAll(repo[1..]);
    }
  }

  lemma DenormalizedOne(l: Value)
    ensures Denormalized([ExpressionItem(l)]) == Some([l])
  {
    var items := [ExpressionItem(l)];
    assert seq(|items|, i requires 0 <= i < |items| => assert items[i] in items; ItemValue(items[i])) == [l];
    ListedAgain([l]);
  }

  // What is read back is the least expression, if there is one, and else the whole repository.
  lemma KeptByJson(repo: seq<Value>)
    requires IsRepository(repo) && repo != []
    ensures Normalize(repo).Some?
    ensures Denormalized(Normalize(repo).value) ==
            Some(if exists l <- repo :: IsExpression(l) then [repo[0]] else repo)
  {
    if exists l <- repo :: IsExpression(l) {
      LeastExpressionIsFound(repo);
      DenormalizedOne(repo[0]);
    } else {
      DisjunctivesAreAll(repo);
      var items := Disjunctives(repo);
      forall item <- items ensures !item.UnknownItem? {
      }
      assert seq(|items|, i requires 0 <= i < |items| => assert items[i] in items; ItemValue(items[i])) == repo;
      ListedAgain(repo);
    }
  }

  // Nothing is dropped exactly when the repository does not mix an expression with other licenses.
  lemma NothingDroppedIffNotMixed(repo: seq<Value>)
    requires IsRepository(repo) && repo != []
    ensures Denormalized(Normalize(repo).value) == Some(repo) <==> !Mixed(repo)
  {
    KeptByJson(repo);
    if Mixed(repo) {
      assert |[repo[0]]| != |repo|;
    } else if exists l <- repo :: IsExpression(l) {
      assert repo == [repo[0]];
    }
  }

  // Of a mix exactly the least expression is kept, and a second pass changes nothing.
  lemma MixKeepsLeastExpression(repo: seq<Value>)
    requires IsRepository(repo) && Mixed(repo)
    ensures Normalize(repo) == Some([ExpressionItem(repo[0])]) && IsExpression(repo[0])
    ensures forall l <- repo :: l == repo[0] || IsLess(repo[0], l)
    ensures Denormalized(Normalize(repo).value).Some?
    ensures Normalize(Denormalized(Normalize(repo).value).value) == Normalize(repo)
  {
    LeastExpressionIsFound(repo);
    KeptByJson(repo);
  }

  // After validation no license of the BOM is dropped: neither of the metadata, nor of any
  // component however deep, nor of a top-level service.
  lemma ValidBomKeepsItsLicenses(contents: Contents, st: Store, g: seq<Entry>, repo: seq<Value>)
    requires Checked(contents, st, g).Valid?
    requires repo == contents.metadataLicenses
          || (exists c <- PreorderAll(contents.Roots()) :: c.licenses == repo)
          || (exists s <- contents.services :: s.licenses == repo)
    requires IsRepository(repo)
    ensures repo == [] ==> Normalize(repo).None?
    ensures repo != [] ==> Normalize(repo).Some? && Denormalized(Normalize(repo).value) == Some(repo)
  {
    if repo != [] {
      NothingDroppedIffNotMixed(repo);
    }
  }

  // What JSON writes of a repository reads back as the same.
  ghost predicate Survives(repo: seq<Value>) {
    if repo == [] then Normalize(repo).None?
    else Normalize(repo).Some? && Denormalized(Normalize(repo).value) == Some(repo)
  }

  // All license repositories of a BOM are listings of sorted sets.
  ghost predicate HoldsRepositories(contents: Contents) {
    IsRepository(contents.metadataLicenses) &&
    (forall c <- PreorderAll(contents.Roots()) :: IsRepository(c.licenses)) &&
    forall s <- ServicePreorder(contents.services) :: IsRepository(s.licenses)
  }

  // All survive, those of services within services included.
  ghost predicate AllSurvive(contents: Contents) {
    Survives(contents.metadataLicenses) &&
    (forall c <- PreorderAll(contents.Roots()) :: Survives(c.licenses)) &&
    forall s <- ServicePreorder(contents.services) :: Survives(s.licenses)
  }

  lemma SurvivesIffNotMixed(repo: seq<Value>)
    requires IsRepository(repo)
    ensures Survives(repo) <==> !Mixed(repo)
  {
    if repo != [] {
      KeptByJson(repo);
      NothingDroppedIffNotMixed(repo);
    }
  }

  // The licenses of services within services are not looked at: of a valid BOM all licenses survive
  // exactly if none of these mixes.
  lemma AllLicensesSurviveIff(contents: Contents, st: Store, g: seq<Entry>)
    requires Checked(contents, st, g).Valid? && HoldsRepositories(contents)
    ensures AllSurvive(contents) <==> forall s <- ServicePreorder(contents.services) :: !Mixed(s.licenses)
  {
    SurvivesIffNotMixed(contents.metadataLicenses);
    forall c <- PreorderAll(contents.Roots()) ensures Survives(c.licenses) {
      SurvivesIffNotMixed(c.licenses);
    }
    forall s <- ServicePreorder(contents.services) ensures Survives(s.licenses) <==> !Mixed(s.licenses) {
      SurvivesIffNotMixed(s.licenses);
    }
  }

  // And validation lets each such mix pass: it looks no deeper than the top-level services.
  lemma NestedServicesAreNotChecked(contents: Contents, others: Contents, st: Store, g: seq<Entry>)
    requires others == contents.(services := others.services) && |others.services| == |contents.services|
    requires forall i :: 0 <= i < |contents.services| ==>
                         others.services[i].bomRef == contents.services[i].bomRef &&
                         others.services[i].licenses == contents.services[i].licenses
    ensures Checked(others, st, g) == Checked(contents, st, g)
  {
    assert ServiceRefs(others.services) == ServiceRefs(contents.services);
    assert others.Roots() == contents.Roots() && others.Reached(st) == contents.Reached(st);
    forall i | 0 <= i < |contents.services|
      ensures others.services[i] in others.services && contents.services[i] in contents.services
    {
    }
  }

  // What validation itself registers is known.
  lemma DependablesAreKnown(contents: Contents, st: Store)
    ensures GraphKeys(TouchAll([], KeysIn(st, contents.Dependables()))) <= contents.KnownKeys(st)
  {
    var ks := KeysIn(st, contents.Dependables());
    TouchAllRelation([], ks);
    forall k <- Elements(ks) ensures k in contents.KnownKeys(st) {
      var i :| 0 <= i < |ks| && ks[i] == k;
      contents.DependablesAreReached(st, contents.Dependables()[i]);
    }
  }

  function PlainService(name: string, r: BomRef, licenses: seq<Value>, services: seq<Service>): Service {
    Service(Nothing, Str(name), Nothing, r, Nothing, [], licenses, Nothing, services, Nothing)
  }

  // The licenses of a service within a service are not looked at: a mix passes there, once validation
  // has given the outer service its entry.
  lemma NestedServiceMixIsNotSeen(st: Store, outer: BomRef, inner: BomRef, expression: Value, license: Value)
    requires IsExpression(expression) && IsDisjunctive(license)
    ensures var nested := PlainService("inner", inner, [expression, license], []);
            var contents := Contents(None, [], [], [PlainService("outer", outer, [], [nested])], []);
            Mixed(nested.licenses) &&
            Checked(contents, st, TouchAll([], KeysIn(st, contents.Dependables()))).Valid?
  {
    var nested := PlainService("inner", inner, [expression, license], []);
    DependablesAreKnown(Contents(None, [], [], [PlainService("outer", outer, [], [nested])], []), st);
  }
}
