# Verified model of the CycloneDX reference machinery

This project models, in Dafny, the part of the CycloneDX Python library that runs whenever a BOM is
written, and proves what it keeps:

- **Bom-refs** (`BomRefs`) are objects shared between components and dependency entries. Their equality
  is identity or an equal value, which a key (the value, or the object when it has none) turns into
  plain equality.
- **The order of all models** (`Compare`, `SortedSets`, `ModelSets`, `ComponentOrder`, `Purls`) pads with
  None, treats None as greatest and recurses; a tuple is compared item by item even with a text. No two
  values are less than each other; it is transitive except, precisely, where texts and tuples mix in
  certain ways, total on values of one shape, and there gives one listing for one set of elements.
- **The dependency graph** (`Graph`, `HashedSets`, `Dependencies`, `Boms`, `GraphRecords`). `Graph` treats it
  as a value; `Dependencies` and `Boms` keep it in objects that are updated in place, as the library does,
  with sets that remember the hashes of what they hold, and are proved to do what `Graph` says.
  `GraphRecords` writes it out and reads it back.
- **Output** (`Walks`, `Components`, `ValueSets`, `Discrimination`, `Resolution`, `Discriminator`,
  `JsonOutput`, `Documents`): the walk over nested components, the renaming of shared or missing refs
  for the time of writing, validation, the outputter, and what the written document is worth.
- **URIs** (`Uris`, `BomLinks`): the gate, the chain of replacements, and links to other BOMs.
- **Licenses and tools** (`Licenses`, `Tools`): what their JSON forms keep.

How the parts fit: `Bom.RegisterDependency`, `Bom.Validate`, `BomRefDiscriminator` and `Json.Generate`
are methods on heap objects. Each states its outcome as a pure function of the state before
(`Graph.Register`, `Graph.TouchAll`, `Boms.Checked`, `Discrimination.Discriminated`, `JsonOutput.Shown`),
and the theorems are about those functions, for all inputs. What the functions hold is fixed by theorems
that do not name their parts: in which order refs are listed and written, which objects validation
registers and a document shows, what each id and record of a document says, and what tools, licenses, URIs
and links are made of.

Parameters stand for what the code takes from outside: `digits` for the random source behind
`_make_unique`, `accepts` for whether serialisation raises, `modern` for a schema version of 1.5 or
later. Python sets list their elements in an order of their own; `JsonOutput.FromBom` therefore promises
only which refs are walked and how often, and the theorems hold for every order.

Some statements one might expect are false of the code. Each is replaced by the exact condition under
which it holds and by inputs on which it fails:

- The order is not transitive: `Compare.TransitiveIff` says of any three values when it breaks, and
  `Compare.TextsKeepOrderBelowIff`, `Compare.TextsKeepOrderAboveIff` and `Compare.TextsKeepOrderAroundIff`
  for which two texts, below, above or on both sides of a tuple. It breaks for package URLs:
  `Purls.UrlsTransitiveIff`, `Purls.UrlsBreakTransitivity`.
- Unequal comparable tuples need not be ordered: `Compare.SilentIffIndistinct`, `Compare.PaddingIsSilent`.
- Different package URLs may compare as equal, since their names are left out:
  `Purls.EqualIffAgreeButForName`, `Purls.NamesAreNotCompared`; and unequal ones need not be ordered:
  `Purls.OrderedIffFormsDoNotClash`.
- A graph ref may lose its meaning while a document is written, if one ref object is walked twice:
  `Resolution.ResolutionAfter`, `Resolution.RepeatedRefBreaksResolution`.
- The graph that is written need not be the one in memory up to the names given, since refs that were
  equal may part: `Documents.DocumentIsIsomorphicIff`, `Resolution.EqualityIsPreservedIff`.
- Updating an entry may list a ref twice, if its value changed after it was added:
  `Dependencies.Dependency.Update`, `Dependencies.AddRenamedAgain`.
- Licenses of a valid BOM may be lost, in services within services: `Licenses.AllLicensesSurviveIff`,
  `Licenses.NestedServiceMixIsNotSeen`.
- Not all refs of a document are told apart, since equal nested components are walked once and nested
  services not at all: `Documents.DocumentIsToldApartIff`, `Documents.EqualTwinsAreNotBothTold`.
- The order of registrations shows in the listing once two refs lack values:
  `Graph.CallOrderIsIrrelevantIff`, `Graph.RunOfTwoAnonymous`; the entries are then not in strict order
  either, by `Graph.RunListsInOrder`.

## Model

| member | source | states |
|---|---|---|
| BomRefs.BomRef.KeyCharacterizes | cyclonedx/model/bom_ref.py:56-69 | Refs are equal if they are one object or share a value; one is less than another exactly if that has a value, and it has none or one less by code points; keys turn both into plain equality and order. |
| BomRefs.KeyLessTotalUnlessAnonymous | cyclonedx/model/bom_ref.py:66-69 | Two different refs are unordered exactly when neither has a value. |
| Compare.LessIrreflexive | cyclonedx/_internal/compare.py:36-46 | No value is less than itself, whatever its shape. |
| Compare.LessAsymmetric | cyclonedx/_internal/compare.py:36-58 | No two values are less than each other, whatever their shapes. |
| Compare.SimpleValuesCompare | cyclonedx/_internal/compare.py:37-46 | Numbers compare by size, texts by code points and plain pairs by left then right text; values of different kinds raise. |
| Compare.UnlikeValuesDoNotCompare | cyclonedx/model/license.py:365-383 | Comparing an object with one of another class raises, except that a license expression is less than a disjunctive license; a tuple compares with nothing that cannot be iterated. |
| Text.StringLessIff | cyclonedx/model/bom_ref.py:66-69 | Texts compare by code point at their first difference, a proper beginning being less. |
| Compare.LessTransitive | cyclonedx/_internal/compare.py:36-46 | The order is transitive, missing tails and Nones included, unless what decides is a tuple against a text or a plain pair. |
| Compare.TransitiveIff | cyclonedx/_internal/compare.py:36-58 | Of three values each less than the next, the first is less than the last exactly unless texts of which one begins with the other, or a text and a plain pair, stand around, below or above a tuple in a way that is spelt out, there or where three tuples first differ. |
| Compare.TextsKeepOrderBelowIff | cyclonedx/_internal/compare.py:36-58 | Of two ordered texts, each tuple above the greater is above the lesser too, exactly if the lesser is no prefix of the greater. |
| Compare.TextsKeepOrderAboveIff | cyclonedx/_internal/compare.py:36-58 | Each tuple below the lesser is below the greater too, under the same exact condition. |
| Compare.TextsKeepOrderAroundIff | cyclonedx/_internal/compare.py:36-58 | Two texts on both sides of a tuple are always in that order exactly if the upper is no proper prefix of the lower. |
| Compare.ItemsChain | cyclonedx/_internal/compare.py:37-45 | Tuples one above the other are ordered throughout exactly if the items are where all three first differ. |
| Compare.PrefixLosesOrder | cyclonedx/_internal/compare.py:36-58 | For a proper prefix, the tuple of its characters is above the longer text and not above the prefix, and the tuple of the longer text's characters is below the prefix and not below that text. |
| Compare.LessByParts | cyclonedx/_internal/compare.py:36-58 | A comparison with a tuple on either side is decided by what the two sides give when iterated. |
| Compare.TupleMeetsOthers | cyclonedx/_internal/compare.py:36-58 | A comparable tuple compares with a plain pair as with the tuple of its two texts, and with a text as with the tuple of its characters, on either side. |
| Compare.FirstDifferenceDecides | cyclonedx/_internal/compare.py:37-45 | The first place where padded tuples differ decides, with None greatest; nothing behind it matters. |
| Compare.PaddedEqualIsNotLess | cyclonedx/_internal/compare.py:37-46 | Tuples that agree once padded with None are not less than each other. |
| Compare.GreaterIsConverse | cyclonedx/_internal/compare.py:48-58 | `>` is exactly the converse of `<`, TypeErrors included. |
| Compare.TotalOnShape | cyclonedx/_internal/compare.py:36-46 | On values of one shape, with Nones in record slots but not in lists, comparing never raises and orders any two different values one way, and no text meets a tuple. |
| Compare.SilentIffIndistinct | cyclonedx/_internal/compare.py:36-46 | Two different values are left unordered, both comparisons answering False, exactly when at their first difference they differ only in trailing Nones, in identity of valueless refs, or in being a tuple or a text of the same parts. |
| Compare.PaddingIsSilent | cyclonedx/_internal/compare.py:36-46 | A tuple and the same tuple with a trailing None are different, and neither is less. |
| SortedSets.AddAllKeeps | cyclonedx/model/dependency.py:80-82 | Under any comparison a sorted set lists just the elements added, each once. |
| SortedSets.FromSeqSorted | cyclonedx/model/dependency.py:80-82 | Under a strict total order the listing is strictly sorted. |
| SortedSets.SortedIsUnique | cyclonedx/model/component.py:482-485 | A strict order has only one sorted listing of a set of elements. |
| ModelSets.InsertionOrderDoesNotShow | cyclonedx/model/component.py:478-491 | Models whose sets were filled from the same elements, in any order and with repeats, compare as equal, and the listing is itself well-shaped. |
| ModelSets.SimpleValuesAscend | cyclonedx/model/component.py:478-485 | A sorted set lists numbers from the least and texts in the order of their characters. |
| ComponentOrder.ComponentConforms | cyclonedx/model/component.py:1678-1698 | Components with fields of given shapes, nested to a bounded depth, are of one shape. |
| ComponentOrder.ComponentsAreOrdered | cyclonedx/model/component.py:1678-1703 | Any such components are in a strict total order however deep they go, and sets of them filled in any order list alike. |
| Components.ComponentsAreEqualIff | cyclonedx/model/component.py:1678-1698 | Components are equal exactly if every field agrees, bom-refs in their values, and the children are pairwise equal in their order. |
| Components.ServicesAreEqualIff | cyclonedx/model/service.py:364-378 | The same of services and those nested in them. |
| Components.ComponentsCompareInOrder | cyclonedx/model/component.py:1678-1703 | Type, group, name, version and bom-ref value decide, in this order, and a missing value is greatest. |
| Components.ServicesCompareInOrder | cyclonedx/model/service.py:364-383 | Group, name, version and bom-ref value decide, in this order. |
| Purls.DictsCompareByItems | cyclonedx/_internal/compare.py:61-67 | Comparable dictionaries are equal exactly when the dictionaries hold the same items, in whatever order they were filled, and unequal ones are ordered one way. |
| Purls.ItemsAscend | cyclonedx/_internal/compare.py:61-67 | The items of a comparable dictionary stand in the order of their keys. |
| Purls.EqualIffAgreeButForName | cyclonedx/_internal/compare.py:70-82 | Package URLs compare as equal exactly when they agree in everything but their names, which the tuple omits. |
| Purls.NamesAreNotCompared | cyclonedx/_internal/compare.py:75-82 | Two package URLs with different names compare as equal. |
| Purls.UrlsCompareInOrder | cyclonedx/_internal/compare.py:70-82 | Types decide first, then namespaces, then versions; subpaths where all else is the same; a missing one is greatest. |
| Purls.OrderedIffFormsDoNotClash | cyclonedx/_internal/compare.py:36-82 | Package URLs are ordered one way, without raising, exactly unless type, namespace and version agree and one holds its qualifiers as text, the other as a dictionary, both empty or both not. |
| Purls.UrlsTransitiveIff | cyclonedx/_internal/compare.py:36-82 | Of three package URLs each less than the next, the first is less than the last exactly unless all agree up to the version and the qualifiers are: empty text, other text, empty dictionary; or a dictionary with items, empty text, other text. |
| Purls.UrlsBreakTransitivity | cyclonedx/_internal/compare.py:36-82 | Of any package URL three variants break the order. |
| Graph.RegisterRelation | cyclonedx/model/bom.py:781-797 | One call adds its target, its dependents and the edges between them, nothing else, and keeps every edge target a node. |
| Graph.RunRelation | cyclonedx/model/bom.py:781-797 | After any sequence of calls the nodes and edges are exactly the union of what was registered. |
| Graph.RunKeepsForm | cyclonedx/model/bom.py:782-792 | Over any run there is one entry for each ref, and entries and their targets stay in order although entries grow in place. |
| Graph.RunInTextOrder | cyclonedx/model/bom.py:789-792 | After any run the entries stand in the order of the values of their refs, those without values first, and so do the targets of each entry. |
| Graph.RunListsInOrder | cyclonedx/model/dependency.py:87-100 | The entries of a run are in strict order under the full comparison of dependencies exactly when no two registered refs lack values. |
| Graph.GraphDeterminesEntries | cyclonedx/model/bom.py:781-797 | Well-formed graphs with the same nodes and edges are the same entries in the same order, unless two refs lack values. |
| Graph.CallOrderIsIrrelevant | cyclonedx/model/bom.py:781-797 | Runs that register the same targets and pairs, in any order and with repeats, end in the same listing if no two refs lack values. |
| Graph.CallOrderIsIrrelevantIff | cyclonedx/model/bom.py:781-797 | What a run registers decides its listing exactly if no two of the refs lack values; otherwise some run that registers the same lists them otherwise. |
| Graph.RunOfTwoAnonymous | cyclonedx/model/bom.py:789-792 | Two targets without values are listed in the order of the calls. |
| Graph.EntryOrderIsRefOrder | cyclonedx/model/dependency.py:87-100 | Entries for different refs compare by their refs; nested dependencies are not looked at. |
| Graph.TouchAllOnlyAddsBareEntries | cyclonedx/model/bom.py:818-825 | Registering without dependents keeps every entry and adds only entries without edges, for refs not seen before. |
| Graph.SecondPassAddsNothing | cyclonedx/model/bom.py:818-825 | Registering the same refs again changes nothing. |
| Dependencies.FlatComparison | cyclonedx/model/dependency.py:87-100 | How an entry without dependencies compares with any entry: by ref, and never less than an equal one. |
| HashedSets.AddMembersUpdates | cyclonedx/model/bom.py:783-786 | A set that looks up members by the hash they were added under, updated with new ones, has exactly the keys of both, in order if they were, and each once exactly if they were and every member with a key that is added is still hashed by it. |
| HashedSets.RenamedIsListedTwice | cyclonedx/model/bom_ref.py:71-72 | A member whose ref got its value after it was added is listed a second time. |
| Dependencies.Dependency.Update | cyclonedx/model/bom.py:783-786 | Updating an entry adds exactly the refs given and keeps order; of flat dependencies each is listed once exactly if it was and every one that is added again is hashed by the value it has. |
| Dependencies.AddRenamedAgain | cyclonedx/model/bom_ref.py:71-72 | A ref that gets its value between two updates is listed more than once. |
| Boms.Bom.RegisterDependency | cyclonedx/model/bom.py:781-797 | On shared objects updated in place: nodes and edges grow by exactly what is registered, in every state; in states made by registration entries stay in order, and are as `Graph.Register` lists them unless two refs lack values, exactly if the target's set finds what is added again, and else a target is listed twice; no entry becomes one that misses something. |
| Boms.Checked | cyclonedx/model/bom.py:827-864 | Accepts exactly if every graph ref equals the ref of a walked component or service and no metadata, component at any depth or top-level service mixes licenses; reports exactly the unknown refs, and those first. |
| Boms.MixIsReportedIff | cyclonedx/model/bom.py:853-864 | A mix is reported exactly if all graph refs are known and some repository of the metadata, of a component at any depth or of a service listed has an expression among more than one license. |
| Walks.Contents.KnownKeysAre | cyclonedx/model/bom.py:827-838 | A value is known exactly if some component at any depth or some service listed has it; a ref without one only if it is such an object itself. |
| Boms.Bom.Validate | cyclonedx/model/bom.py:807-866 | Adds to the nodes exactly the refs of the root, of each component listed and of each service listed, and no edge; leaves all values alone, and answers what the checks say of the result. |
| Walks.Contents.DependablesAre | cyclonedx/model/bom.py:818-825 | Registered are the root, each component and each service, in this order. |
| GraphRecords.DeserializeTargets | cyclonedx/model/dependency.py:41-47 | Reading targets makes new flat entries with new refs; their keys are the sorted set of the texts. |
| GraphRecords.RoundTrip | cyclonedx/model/dependency.py:34-47 | A graph can be read back exactly when all its refs have values; then nodes and edges are restored, and of a graph made by registration every entry in its place. |
| GraphRecords.TargetsWrittenInOrder | cyclonedx/model/dependency.py:34-37 | The texts of a record ascend, those of refs without values, which are empty, first. |
| GraphRecords.WrittenInOrder | cyclonedx/model/dependency.py:34-37 | A graph made by registration is written in the order of the values of its refs, and so are the targets in each record. |
| GraphRecords.ReadRelation | cyclonedx/model/dependency.py:41-47 | Records in any order and with any repeats are read exactly if each ref in them names something, and give just the nodes and edges they name. |
| Components.GetAllNestedComponents | cyclonedx/model/component.py:1662-1670 | The recursive collection into a set holds, of equal components in preorder, the first. |
| Components.TreesAreClosed | cyclonedx/model/component.py:1662-1670 | A tree holds what is listed and the children of what it holds, and nothing else. |
| Components.EqualComponentsShareFields | cyclonedx/model/component.py:1678-1698 | Equal components have equal bom-ref values and equal licenses. |
| Components.TreesByLevel | cyclonedx/model/component.py:1662-1670 | It holds each once for each place: what is listed, and the trees of all children. |
| ValueSets.IncludeAllOfSet | cyclonedx/model/component.py:1667-1668 | Updating a set with a set adds what its source list would add. |
| ValueSets.FirstIsKept | cyclonedx/model/component.py:1667-1668 | Of equal elements the set keeps the one that came first. |
| Walks.WalkCovers | cyclonedx/model/bom.py:743-747 | The walk reaches an equal of every component at any depth. |
| Walks.WalkKeepsRoots | cyclonedx/model/bom.py:743-747 | The walk reaches the root and every top-level component in person. |
| Walks.WalkOfOneMore | cyclonedx/model/bom.py:743-747 | Each listed component adds to the walk only components of its own tree, no two of them equal. |
| Walks.Contents.WalkedHas | cyclonedx/output/__init__.py:171-177 | Walked are an equal of every component, the listed ones, services and vulnerabilities themselves, and no more places than these sets and lists have. |
| Walks.WalkSeesAllLicenses | cyclonedx/model/bom.py:853-864 | Checking licenses on the walked components finds a mix exactly if some component at any depth has one. |
| Walks.Contents.WalkedIsWritten | cyclonedx/output/__init__.py:171-177 | Every ref that is walked belongs to an object that is written. |
| Walks.Contents.DocumentRefsAre | cyclonedx/output/json.py:73-76 | Written are the refs of exactly the components and services at any depth and the vulnerabilities. |
| Walks.ServicesAreClosed | cyclonedx/output/json.py:73-76 | Services are written with those nested in them, and nothing else. |
| Walks.ServicesByLevel | cyclonedx/output/json.py:73-76 | Each service is written once for each place. |
| Discrimination.AllAreNamed | cyclonedx/output/__init__.py:155-162 | Afterwards every listed ref has a value, whatever names were drawn. |
| Discrimination.OthersAreUntouched | cyclonedx/output/__init__.py:155-162 | Refs that are not listed keep their values. |
| Discrimination.FreshDrawsTellApart | cyclonedx/output/__init__.py:155-162 | If no name drawn was already known, different objects end with different values, also when objects recur in the list. |
| Discrimination.ToldApartIffFreshDraws | cyclonedx/output/__init__.py:155-169 | For a list without repeats that condition is exact. |
| Discrimination.KeptIffFirstHolder | cyclonedx/output/__init__.py:155-162 | Renaming is minimal: with unused names a ref keeps its value exactly if it had one, no earlier place held that value, and the object is listed once. |
| Discrimination.GoodSupplyIsFresh | cyclonedx/output/__init__.py:155-169 | Names that never repeat and are no ref's value are fresh at every draw. |
| Discriminator.BomRefDiscriminator.Discriminate | cyclonedx/output/__init__.py:155-162 | On shared objects, every listed ref ends with the value `Discrimination.Discriminated` gives it. |
| Discriminator.BomRefDiscriminator.Reset | cyclonedx/output/__init__.py:164-166 | Every listed ref has the value it had when the discriminator was made, repeats included. |
| Resolution.ResolutionAfter | cyclonedx/output/__init__.py:155-162 | A ref held elsewhere that equalled a listed one still does exactly if it is listed itself or the first holder of its value is listed once; it never equals two. |
| Resolution.EqualityAfter | cyclonedx/output/__init__.py:155-162 | Refs that mean listed ones are equal afterwards exactly if they are one object, or were equal and both kept their values. |
| Resolution.EqualityIsPreservedIff | cyclonedx/output/__init__.py:155-162 | Two graph refs are equal or different after as before exactly if they are one object, were different, or neither moves: each is not listed, or listed once and first with its value. |
| Resolution.EqualityIsPreserved | cyclonedx/output/__init__.py:155-162 | In particular if no object is listed twice and no two listed refs share a value. |
| Resolution.RepeatedRefBreaksResolution | cyclonedx/output/__init__.py:155-162 | A ref listed twice loses its value, and an equal ref held elsewhere then means nothing. |
| JsonOutput.FromBom | cyclonedx/output/__init__.py:171-177 | Lists the refs of walked components, services and vulnerabilities, in some order. |
| JsonOutput.Render | cyclonedx/output/json.py:73-76 | What is serialised is the BOM under the renamed refs, and all refs are restored whether or not serialisation raises. |
| JsonOutput.Json.Generate | cyclonedx/output/json.py:56-79 | In every outcome all refs end with the values they had and the graph gains only what validation registers; text and flag change only on success, and the text is the document shown under the renamed refs, of which the rows of `Documents` say what it holds. |
| JsonOutput.Json.OutputAsString | cyclonedx/output/json.py:81-86 | A text that was generated before is given again; the graph is then not touched, and the values of refs in no case. |
| Documents.DocumentIdsAre | cyclonedx/output/json.py:73-76 | The document has one id for each ref written: its value before, exactly where the ref stays put, else the prefix with digits drawn; a walked ref always has one. |
| Documents.DocumentRecordsAre | cyclonedx/output/json.py:73-76 | It has one record for each entry, with the values of the ref and of each target in their order. |
| Documents.DocumentIsLinked | cyclonedx/output/json.py:71-76 | If no object is walked twice, each text in the records is the id, in the same document, of an object that the graph ref was equal to. |
| Documents.GraphRefsMeanOneRef | cyclonedx/output/json.py:71-76 | If validation passes, the walked objects are distinct and names are fresh, then while writing all walked refs have values of their own and every graph ref has the value of exactly one of them. |
| Documents.DocumentReadsBack | cyclonedx/output/json.py:71-76 | The graph of a written document can be read, with the nodes and edges that were written. |
| Documents.DocumentIsIsomorphicIff | cyclonedx/output/json.py:71-76 | The graph read back is the graph in memory up to the names given, in equality of refs, nodes and edges, exactly if no two different objects in the graph that are equal have to move. |
| Documents.DocumentIsIsomorphic | cyclonedx/output/json.py:71-76 | In particular if no object is walked twice and no two walked refs share a value. |
| Documents.DocumentIsToldApartIff | cyclonedx/output/__init__.py:171-177 | All refs of the document are told apart exactly if each one that is not walked has a value to begin with, which no other such ref has and no walked ref keeps; refs may be walked twice. |
| Documents.LeftOutComponentIsNotToldApart | cyclonedx/model/component.py:1662-1670 | The ref of a component left out for an equal one has what a walked ref has, and so fails that condition unless a ref is walked twice. |
| Documents.EqualTwinsAreNotBothTold | cyclonedx/model/component.py:1662-1670 | Of two equal components without values, below different parents, the second is written without a value. |
| Documents.GeneratedTextIsSound | cyclonedx/output/json.py:56-79 | What a successful `generate` keeps has a readable graph, each ref of which had the value of exactly one walked ref, and every ref and target in its records is an id of the same text, unless an object is walked twice. |
| Uris.AcceptsIff | cyclonedx/model/__init__.py:638-638 | The search for an invalid place is decided by one scan for stray percent signs and second hash signs on a line. |
| Uris.AcceptsExactly | cyclonedx/model/__init__.py:638-638 | Accepted is exactly what has two hex digits of either case behind each percent sign and a line break between any two hash signs. |
| Uris.AcceptanceIgnoresCase | cyclonedx/model/__init__.py:638-638 | Texts that differ in case are accepted alike. |
| Uris.FoldIsOnePass | cyclonedx/model/__init__.py:652-670 | A chain of whole-text replacements is one pass over the characters, if no replacement brings in a replaced character. |
| Uris.RowOrderIsIrrelevant | cyclonedx/model/__init__.py:640-670 | The order of the rows of such a table does not matter. |
| Uris.SpecMigrateIsMigrated | cyclonedx/model/__init__.py:640-670 | The nine replacements are such a pass and leave none of the nine characters. |
| Uris.MigrationOfCharacter | cyclonedx/model/__init__.py:640-670 | Each of the nine characters becomes its own code in upper-case hex digits behind a percent sign; any other stays. |
| Uris.MigrationFixesIff | cyclonedx/model/__init__.py:640-670 | A text stays as it is exactly if it has none of the nine. |
| Uris.MigrationKeepsMeaning | cyclonedx/model/__init__.py:640-677 | A text and its migration stand for the same characters once escapes are undone. |
| Uris.MigrationKeepsAcceptance | cyclonedx/model/__init__.py:638-677 | A text is accepted exactly when its migration is. |
| Uris.MigrationIsIdempotent | cyclonedx/model/__init__.py:656-670 | Migrating again changes nothing. |
| Uris.UriRoundTrip | cyclonedx/model/__init__.py:672-718 | Every URI that was constructed can be written and read back as the same. |
| BomLinks.QuoteReadsBack | cyclonedx/model/__init__.py:738-738 | Undoing the escapes and reading the bytes as UTF-8 gives the code points of the text quoted. |
| BomLinks.QuoteIsInjective | cyclonedx/model/__init__.py:738-738 | Percent-encoding tells all texts apart. |
| BomLinks.QuoteFixesIff | cyclonedx/model/__init__.py:738-738 | A text stays as it is exactly if it has only letters, digits and the characters `_.-~/`. |
| BomLinks.DecimalReadsBack | cyclonedx/model/__init__.py:739-739 | A version is written in decimal digits that spell it, without a leading zero, behind a minus sign if negative. |
| BomLinks.LinkIsMadeOf | cyclonedx/model/__init__.py:720-739 | A link is what a URI makes of the prefix, the serial number, a slash, the version, and behind a hash sign the quoted ref, if there is one that is not empty. |
| BomLinks.LinkIsAcceptedIff | cyclonedx/model/__init__.py:720-739 | A link is accepted exactly if its serial number is, and has no hash sign on its last line when a ref follows. |
| BomLinks.UuidLink | cyclonedx/model/__init__.py:720-748 | For a UUID there is always a link, migration leaves it alone, and it is recognised. |
| BomLinks.LinkIsRecognisedIff | cyclonedx/model/__init__.py:741-748 | Any URI is recognised as a BOM-Link exactly if its text begins with the prefix, migrated or not. |
| BomLinks.LinkIsInjective | cyclonedx/model/__init__.py:720-739 | A link names one serial number, one version and one ref. |
| Licenses.Denormalize | cyclonedx/model/license.py:455-469 | Fills a repository with the licenses of the items, or raises on an item of unknown kind. |
| Licenses.DenormalizedIs | cyclonedx/model/license.py:455-469 | A list is illegible exactly if it has an item of unknown kind; else it gives exactly the licenses of its items, each once. |
| Licenses.NormalizedForm | cyclonedx/model/license.py:434-452 | Nothing is written exactly of an empty repository; the first expression stands alone, and else each disjunctive license is an item in its order. |
| Licenses.LicensesMakeARepository | cyclonedx/model/license.py:365-383 | Any licenses, of both kinds, fill a strictly sorted repository. |
| Licenses.KeptByJson | cyclonedx/model/license.py:434-469 | What JSON keeps of a repository is its least expression, if it has one, and else all of it. |
| Licenses.NothingDroppedIffNotMixed | cyclonedx/model/license.py:434-469 | The round trip gives the repository back exactly if no expression stands beside other licenses. |
| Licenses.MixKeepsLeastExpression | cyclonedx/model/license.py:434-469 | Of a mix exactly the least license, an expression, is kept, and a second pass changes nothing. |
| Licenses.ValidBomKeepsItsLicenses | cyclonedx/model/bom.py:853-864 | After validation no license is dropped of the metadata, any component at any depth, or a top-level service. |
| Licenses.AllLicensesSurviveIff | cyclonedx/model/bom.py:853-864 | Of a valid BOM every license repository, those of services within services included, survives writing and reading exactly if no service at any depth mixes. |
| Licenses.NestedServicesAreNotChecked | cyclonedx/model/bom.py:853-864 | What stands within the top-level services makes no difference to validation. |
| Licenses.NestedServiceMixIsNotSeen | cyclonedx/model/bom.py:818-862 | A mix in a service within a service passes validation. |
| Tools.EqualPartsAreOne | cyclonedx/model/tool.py:175-192 | Equal components, and equal services, map to equal tools. |
| Tools.ComponentIsToolIff | cyclonedx/model/tool.py:175-183 | A tool and a component are lowered to that tool alone exactly if its vendor, name, version, hashes and references are the component's group, name, version, hashes and external references. |
| Tools.ServiceIsToolIff | cyclonedx/model/tool.py:185-192 | The same of a service, which has no hashes. |
| Tools.NormalizedForm | cyclonedx/model/tool.py:296-310 | Nothing is written exactly of the empty repository; a list of all as tools exactly if there are tools or the version knows nothing else; else components and services as they are. |
| Tools.LoweredIsTheUnion | cyclonedx/model/tool.py:279-287 | Lowering lists the union of tools, mapped components and mapped services, sorted and each once. |
| Tools.LoweredIsStable | cyclonedx/model/tool.py:296-324 | A list that was lowered once is written the same at every version. |
| Tools.ToolsRoundTripIff | cyclonedx/model/tool.py:296-324 | A repository survives writing and reading exactly if it need not be lowered or holds nothing but tools. |

## Left out

- Text generation, files, XML output and schema validators: `as_json` and `from_json` are taken to keep the fields of an object at one version; `cyclonedx/output/xml.py` follows the same protocol as JSON.
- Hash buckets inside sorted sets: a sorted set is its listing, filled by insertion. The library may rebuild the listing from a hash set, which gives the same under a total order; of the order among refs without values `Dependencies.Dependency.Update` therefore says nothing. Different keys are taken to have different hashes; where they collide, equality decides in the end as here.
- `Dependencies.PlaceFor`: in a listing that is no longer in order, because values changed after the refs were registered, the library's binary search may find another place.
- `Compare.Value`: to Python a comparable tuple equals a plain one with the same items, here they differ; plain tuples come from dictionaries only and meet no comparable tuple.
- The lists of a BOM that neither output nor validation changes stand together in one value, `Walks.Contents`.
- The `ref` setter of `Dependency`, and setters and getters elsewhere: nothing modelled here calls them on existing objects.
- An iterator passed as `depends_on` that can be walked only once: the argument is a sequence.
- JSON refs within licenses, tool components and definitions, which the discriminator does not walk either.
- The warning of `validate` about a root component without dependencies.
- `Boms.Bom.RegisterDependency`: where user-made entries nest dependencies of their own, or share objects with entries, or are out of order, its exact listing is not stated, only the nodes and edges.
- `GraphRecords.Read`: a target written as "" would be read as a new ref without a value, and an entry without `ref` would raise; both count as not readable.
- `Compare.Less`: floating-point fields, and `BomMetaData`, whose `__lt__` tests equality.
- `JsonOutput.Json`: replacing the BOM by `set_bom` does not reset the flag, so the old text would be given; the BOM of an outputter is fixed here.
- `Uris.Make`: lone surrogates, which Python strings may hold, are no characters here; `BomLinks.Quote` would raise on them.
- Enum tables for each schema version, deprecation warnings, the parsing of package URLs, SWHID and CVSS helpers, which would add only easy members.
