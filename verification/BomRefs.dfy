/** Bom-refs: mutable identifiers that are shared between the objects of a BOM. */
module BomRefs {
  import opened Text

  datatype Option<+T> = None | Some(value: T)

  // The setter turns the empty string into None, so a stored value is never empty.
  type Name = s: string | s != "" witness "BomRef"

  function Normalized(value: Option<string>): (r: Option<Name>)
    ensures r.None? <==> value.None? || value.value == ""
    ensures r.Some? ==> value == Some(r.value)
  {
    if value.None? || value.value == "" then None else Some(value.value)
  }

  /** What `__eq__` can see of a bom-ref: its value, or its identity when it has no value. */
  datatype RefKey = Named(name: Name) | Anonymous(ref: BomRef)
  {
    function Text(): string {
      if Named? then name else ""
    }

    function Value(): Option<Name> {
      if Named? then Some(name) else None
    }
  }

  // `__lt__` of two bom-refs, which compares their texts.
  predicate KeyLess(a: RefKey, b: RefKey) {
    StringLess(a.Text(), b.Text())
  }

  lemma KeyLessTransitive(a: RefKey, b: RefKey, c: RefKey)
    requires KeyLess(a, b) && KeyLess(b, c)
    ensures KeyLess(a, c)
  {
    StringLessTransitive(a.Text(), b.Text(), c.Text());
  }

  lemma KeyLessIrreflexive(a: RefKey)
    ensures !KeyLess(a, a)
  {
    StringLessIrreflexive(a.Text());
  }

  // Two different keys escape the order exactly when both are anonymous.
  lemma KeyLessTotalUnlessAnonymous(a: RefKey, b: RefKey)
    ensures (a == b || KeyLess(a, b) || KeyLess(b, a)) <==> (a == b || a.Named? || b.Named?)
  {
    StringLessTotal(a.Text(), b.Text());
    if a.Named? && b.Named? && a != b {
      assert a.Text() != b.Text();
    }
  }

  class BomRef {
    var value: Option<Name>

    constructor (value: Option<string>)
      ensures this.value == Normalized(value)
    {
      this.value := Normalized(value);
    }

    method SetValue(value: Option<string>)
      modifies this
      ensures this.value == Normalized(value)
    {
      this.value := Normalized(value);
    }

    function Text(): string
      reads this
    {
      if value.Some? then value.value else ""
    }

    predicate Equals(other: BomRef)
      reads this, other
    {
      this == other || (other.value.Some? && value.Some? && other.value == value)
    }

    predicate LessThan(other: BomRef)
      reads this, other
    {
      StringLess(Text(), other.Text())
    }

    function Key(): RefKey
      reads this
    {
      if value.Some? then Named(value.value) else Anonymous(this)
    }

    // Keys turn the heap-dependent equality and order into structural ones. Values are ordered as
    // texts, and a ref without a value is less than every ref with one.
    lemma KeyCharacterizes(other: BomRef)
      ensures Equals(other) <==> Key() == other.Key()
      ensures Equals(other) <==> this == other || (value == other.value && value != None)
      ensures LessThan(other) <==> KeyLess(Key(), other.Key())
      ensures LessThan(other) <==>
              other.value.Some? && (value.Some? ==> StringLess(value.value, other.value.value))
    {
    }
  }

  /** The values that refs hold at one moment. */
  type Store = map<BomRef, Option<Name>>

  function ValueIn(st: Store, r: BomRef): Option<Name> {
    if r in st then st[r] else None
  }

  function KeyIn(st: Store, r: BomRef): RefKey {
    var v := ValueIn(st, r);
    if v.Some? then Named(v.value) else Anonymous(r)
  }

  function Snapshot(refs: set<BomRef>): (st: Store)
    reads refs
    ensures st.Keys == refs
    ensures forall r <- refs :: ValueIn(st, r) == r.value && KeyIn(st, r) == r.Key()
  {
    map r | r in refs :: r.value
  }

  lemma SnapshotIs(refs: set<BomRef>, st: Store)
    requires st.Keys == refs && forall r <- refs :: r.value == ValueIn(st, r)
    ensures Snapshot(refs) == st
  {
  }

  // Refs at hand are allocated, however deep in a component tree they were found.
  lemma AreAllocated(refs: set<BomRef>)
    ensures forall r <- refs :: allocated(r)
  {
  }
}
