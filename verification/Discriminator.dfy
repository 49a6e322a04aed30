/** The object that renames the bom-refs of a BOM for the time of writing it, and restores them. */
module Discriminator {
  import opened BomRefs
  import opened Discrimination

  // `_make_unique`: the prefix and the digits of two random numbers; `digits` is what the random
  // source yields, one item a call.
  function Drawn(prefix: string, digits: nat -> Name): nat -> Name {
    k => prefix + digits(k)
  }

  class BomRefDiscriminator {
    const bomrefs: seq<(BomRef, Option<Name>)>
    const prefix: string
    const digits: nat -> Name
    var drawn: nat

    // The originals are those of one moment, so places of the same object agree.
    ghost predicate Valid() {
      forall i, j :: 0 <= i < |bomrefs| && 0 <= j < |bomrefs| && bomrefs[i].0 == bomrefs[j].0 ==>
                       bomrefs[i].1 == bomrefs[j].1
    }

    function Refs(): (refs: seq<BomRef>)
      ensures |refs| == |bomrefs| && forall i :: 0 <= i < |refs| ==> refs[i] == bomrefs[i].0
    {
      seq(|bomrefs|, i requires 0 <= i < |bomrefs| => bomrefs[i].0)
    }

    constructor (refs: seq<BomRef>, prefix: string, digits: nat -> Name)
      ensures Valid() && Refs() == refs
      ensures forall i :: 0 <= i < |refs| ==> bomrefs[i].1 == refs[i].value
      ensures this.prefix == prefix && this.digits == digits && drawn == 0
    {
      bomrefs := seq(|refs|, i requires 0 <= i < |refs| reads refs => (refs[i], refs[i].value));
      this.prefix := prefix;
      this.digits := digits;
      drawn := 0;
    }

    method MakeUnique() returns (name: Name)
      modifies this`drawn
      ensures name == Drawn(prefix, digits)(old(drawn)) && drawn == old(drawn) + 1
    {
      name := Drawn(prefix, digits)(drawn);
      drawn := drawn + 1;
    }

    // `st` may be any record of values that is right about the refs listed.
    method Discriminate(ghost st: Store)
      requires forall r <- Refs() :: r.value == ValueIn(st, r)
      modifies this`drawn, Refs()
      ensures var run := Discriminated(st, Refs(), Drawn(prefix, digits), old(drawn));
              drawn == run.drawn && forall r <- Refs() :: r.value == ValueIn(run.store, r)
    {
      ghost var first := drawn;
      var known: seq<Name> := [];
      for i := 0 to |bomrefs|
        invariant var run := Discriminated(st, Refs()[..i], Drawn(prefix, digits), first);
                  known == run.known && drawn == run.drawn &&
                  forall r <- Refs() :: r.value == ValueIn(run.store, r)
      {
        var bomref := bomrefs[i].0;
        assert bomref == Refs()[i] && Refs()[..i + 1][..i] == Refs()[..i];
        var value := bomref.value;
        if value.None? || value.value in known {
          var name := MakeUnique();
          value := Some(name);
          bomref.SetValue(value);
        }
        known := known + [value.value];
      }
      assert Refs()[..|bomrefs|] == Refs();
    }

    method Reset()
      requires Valid()
      modifies Refs()
      ensures forall i :: 0 <= i < |bomrefs| ==> bomrefs[i].0.value == bomrefs[i].1
    {
      for i := 0 to |bomrefs|
        invariant forall j :: 0 <= j < i ==> bomrefs[j].0.value == bomrefs[j].1
      {
        assert bomrefs[i].0 == Refs()[i];
        bomrefs[i].0.SetValue(bomrefs[i].1);
      }
    }
  }
}
