/** Writing a BOM as JSON: validate, rename, serialise, restore. */
module JsonOutput {
  import opened BomRefs
  import opened Boms
  import opened Dependencies
  import opened Discrimination
  import opened Discriminator
  import opened Graph
  import opened GraphRecords
  import opened Walks

  /** What a document shows of bom-refs: one for each object written, and the dependency graph. */
  datatype Document = Document(ids: seq<Option<Name>>, dependencies: seq<Record>)

  datatype JsonText = JsonText(schema: string, bomFormat: string, specVersion: string, body: Document)

  datatype Outcome =
    | AlreadyGenerated
    | FormatNotSupported
    | Invalid(verdict: Validation)
    | SerializationFailed
    | Generated

  // `as_json`, which keeps every field.
  function AsJson(document: seq<BomRef>, entries: seq<RefEntry>): Document
    reads document, RefsIn(entries)
  {
    Document(seq(|document|, i requires 0 <= i < |document| reads document => document[i].value),
             Write(Keyed(entries)))
  }

  // The document as it would come out under recorded values.
  function Rendered(st: Store, document: seq<BomRef>, entries: seq<RefEntry>): Document {
    Document(seq(|document|, i requires 0 <= i < |document| => ValueIn(st, document[i])),
             Write(KeyedIn(st, entries)))
  }

  lemma AsJsonIsRendered(st: Store, document: seq<BomRef>, entries: seq<RefEntry>)
    requires forall r <- document :: r.value == ValueIn(st, r)
    requires forall r <- RefsIn(entries) :: r.value == ValueIn(st, r)
    ensures AsJson(document, entries) == Rendered(st, document, entries)
  {
    KeyedIsKeyedIn(entries, st);
  }

  // The `with` block: the refs are renamed, the BOM is serialised, and the refs are restored
  // whether or not serialisation raises.
  method Render(document: seq<BomRef>, entries: seq<RefEntry>, walked: seq<BomRef>,
                digits: nat -> Name, accepts: Document -> bool, ghost st: Store)
    returns (body: Option<Document>)
    requires forall r <- document :: r.value == ValueIn(st, r)
    requires forall r <- RefsIn(entries) :: r.value == ValueIn(st, r)
    requires forall r <- walked :: r.value == ValueIn(st, r)
    modifies walked
    ensures forall r <- document :: r.value == ValueIn(st, r)
    ensures forall r <- RefsIn(entries) :: r.value == ValueIn(st, r)
    ensures var shown := Rendered(Discriminated(st, walked, Drawn("BomRef", digits), 0).store, document, entries);
            body == if accepts(shown) then Some(shown) else None
  {
    var discriminator := new BomRefDiscriminator(walked, "BomRef", digits);
    OthersAreUntouched(st, walked, Drawn("BomRef", digits), 0);
    discriminator.Discriminate(st);
    ghost var run := Discriminated(st, walked, Drawn("BomRef", digits), 0);
    AsJsonIsRendered(run.store, document, entries);
    var shown := AsJson(document, entries);
    body := if accepts(shown) then Some(shown) else None;
    discriminator.Reset();
    forall r <- walked ensures r.value == old(r.value) {
      var i :| 0 <= i < |walked| && walked[i] == r;
      assert discriminator.bomrefs[i].0 == r;
    }
  }

  // The refs the discriminator is built from. Python sets list their elements in an order of their
  // own, so all that is promised is which refs are listed, and how often.
  method FromBom(contents: Contents, st: Store) returns (walked: seq<BomRef>)
    ensures multiset(walked) == multiset(contents.Walked(st))
  {
    var found := WalkAll(st, contents.Roots());
    walked := ItemRefs(found) + ServiceRefs(contents.services) + contents.vulnerabilities;
  }

  // The BOM as written while the refs walked have been told apart, in the order given.
  function Shown(contents: Contents, st: Store, es: seq<RefEntry>, walked: seq<BomRef>, digits: nat -> Name): Document {
    Rendered(Discriminated(st, walked, Drawn("BomRef", digits), 0).store, contents.DocumentRefs(), es)
  }

  // Writes a validated BOM, and leaves it as it was.
  method Emit(contents: Contents, ds: seq<Dependency>, es: seq<RefEntry>, st: Store,
              digits: nat -> Name, accepts: Document -> bool)
    returns (body: Option<Document>, ghost walked: seq<BomRef>)
    requires EntriesOf(ds) == es
    requires st.Keys == contents.DocumentSet() + RefsIn(es)
    requires forall r <- st.Keys :: r.value == ValueIn(st, r)
    modifies contents.DocumentSet()
    ensures EntriesOf(ds) == es
    ensures forall r <- st.Keys :: r.value == ValueIn(st, r)
    ensures multiset(walked) == multiset(contents.Walked(st))
    ensures var shown := Shown(contents, st, es, walked, digits);
            body == if accepts(shown) then Some(shown) else None
  {
    AreAllocated(st.Keys);
    var refs := FromBom(contents, st);
    contents.WalksAreWritten(st, refs);
    body := Render(contents.DocumentRefs(), es, refs, digits, accepts, st);
    walked := refs;
  }

  // All that `generate` does to the BOM. `st` and `es` record the values and entries it leaves.
  method Produce(bom: Bom, digits: nat -> Name, accepts: Document -> bool)
    returns (verdict: Validation, body: Option<Document>,
             ghost walked: seq<BomRef>, ghost st: Store, ghost es: seq<RefEntry>)
    modifies bom`dependencies, bom.EntrySet(), bom.contents.DocumentSet()
    ensures Snapshot(bom.contents.DocumentSet()) == old(Snapshot(bom.contents.DocumentSet()))
    ensures EntriesOf(bom.dependencies) == es
    ensures st.Keys == bom.contents.DocumentSet() + RefsIn(es) && forall r <- st.Keys :: r.value == ValueIn(st, r)
    ensures KeyedIn(st, es) == TouchAll(old(bom.Graph()), KeysIn(st, bom.contents.Dependables()))
    ensures verdict == Checked(bom.contents, st, KeyedIn(st, es))
    ensures !verdict.Valid? ==> body.None?
    ensures verdict.Valid? ==>
              multiset(walked) == multiset(bom.contents.Walked(st)) &&
              var shown := Shown(bom.contents, st, es, walked, digits);
              body == if accepts(shown) then Some(shown) else None
  {
    verdict := bom.Validate();
    var values, entries := bom.Values(), EntriesOf(bom.dependencies);
    ghost var refs, before := bom.contents.DocumentSet(), Snapshot(bom.contents.DocumentSet());
    bom.DecidedBy(values, entries);
    st, es := values, entries;
    if verdict.Valid? {
      body, walked := Emit(bom.contents, bom.dependencies, entries, values, digits, accepts);
    } else {
      body, walked := None, [];
    }
    SnapshotIs(refs, before);
  }

  class Json {
    const bom: Bom
    const schemaUri: Option<Name>  // no version has an empty one
    const specVersion: string
    var generated: bool
    var bomJson: Option<JsonText>
    ghost var walked: seq<BomRef>  // the order in which the last document renamed its refs

    constructor (bom: Bom, schemaUri: Option<Name>, specVersion: string)
      ensures this.bom == bom && this.schemaUri == schemaUri && this.specVersion == specVersion
      ensures !generated && bomJson == None
    {
      this.bom := bom;
      this.schemaUri := schemaUri;
      this.specVersion := specVersion;
      generated := false;
      bomJson := None;
      walked := [];
    }

    method Generate(force: bool, digits: nat -> Name, accepts: Document -> bool) returns (r: Outcome)
      modifies this, bom`dependencies, bom.EntrySet(), bom.contents.DocumentSet()
      ensures r == AlreadyGenerated <==> old(generated) && !force
      ensures r == FormatNotSupported <==> !(old(generated) && !force) && schemaUri.None?
      ensures Snapshot(bom.contents.DocumentSet()) == old(Snapshot(bom.contents.DocumentSet()))
      ensures bom.Graph() ==
              if r == AlreadyGenerated || r == FormatNotSupported then old(bom.Graph())
              else TouchAll(old(bom.Graph()), Keys(bom.contents.Dependables()))
      ensures r.Invalid? ==> r.verdict == Checked(bom.contents, bom.Values(), bom.Graph()) != Valid
      ensures r == SerializationFailed || r == Generated ==>
                Checked(bom.contents, bom.Values(), bom.Graph()) == Valid
      ensures r != Generated ==> generated == old(generated) && bomJson == old(bomJson)
      ensures r == Generated ==>
                var shown := Shown(bom.contents, bom.Values(), EntriesOf(bom.dependencies), walked, digits);
                generated && multiset(walked) == multiset(bom.contents.Walked(bom.Values())) &&
                accepts(shown) && schemaUri.Some? &&
                bomJson == Some(JsonText(schemaUri.value, "CycloneDX", specVersion, shown))
    {
      if generated && !force {
        return AlreadyGenerated;
      }
      if schemaUri.None? {
        return FormatNotSupported;
      }
      ghost var refs, st, es;
      var verdict, body;
      verdict, body, refs, st, es := Produce(bom, digits, accepts);
      if body.Some? {
        Keep(JsonText(schemaUri.value, "CycloneDX", specVersion, body.value), refs, st, es);
      }
      bom.DecidedBy(st, es);
      return if !verdict.Valid? then Invalid(verdict) else if body.None? then SerializationFailed else Generated;
    }

    /** `output_as_string`: the text that is kept, which is produced first if there is none. */
    method OutputAsString(digits: nat -> Name, accepts: Document -> bool)
      returns (r: Outcome, text: Option<JsonText>)
      modifies this, bom`dependencies, bom.EntrySet(), bom.contents.DocumentSet()
      ensures r == AlreadyGenerated <==> old(generated)
      ensures Snapshot(bom.contents.DocumentSet()) == old(Snapshot(bom.contents.DocumentSet()))
      ensures old(generated) ==> bom.Graph() == old(bom.Graph()) && bomJson == old(bomJson)
      ensures !old(generated) && r != FormatNotSupported ==>
                bom.Graph() == TouchAll(old(bom.Graph()), Keys(bom.contents.Dependables()))
      ensures text == if r == Generated || r == AlreadyGenerated then bomJson else None
      ensures r == Generated ==> generated && text.Some?
    {
      r := Generate(false, digits, accepts);
      text := if r == Generated || r == AlreadyGenerated then bomJson else None;
    }

    // Keeping the text of a document does not touch the BOM.
    method Keep(text: JsonText, ghost refs: seq<BomRef>, ghost st: Store, ghost es: seq<RefEntry>)
      requires EntriesOf(bom.dependencies) == es && forall r <- st.Keys :: r.value == ValueIn(st, r)
      modifies this
      ensures generated && bomJson == Some(text) && walked == refs
      ensures EntriesOf(bom.dependencies) == es && forall r <- st.Keys :: r.value == ValueIn(st, r)
      ensures Snapshot(bom.contents.DocumentSet()) == old(Snapshot(bom.contents.DocumentSet()))
    {
      ghost var docs := Snapshot(bom.contents.DocumentSet());
      bomJson := Some(text);
      generated := true;
      walked := refs;
      SnapshotIs(bom.contents.DocumentSet(), docs);
    }
  }
}
