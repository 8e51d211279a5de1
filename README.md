# WindowsSettingsTool, modelled in Dafny

WindowsSettingsTool is a small Windows Forms program. It shows every Windows
system setting named in the registry as a tree, grouping them by the
'_'-separated parts of their ids, and offers a property grid for the selected
one. This project models its core:

- the main window (`MainForm.cs`), as the class `Navigation.MainForm`. It
  builds the tree (`loadSettingsList`), merges single-child branches
  (`MergeSingleNodes`) and creates the descriptor of a node on its first
  selection (`settingsTree_BeforeSelect`). The tree view's nodes are a table
  (`NodeTable`): a node's position stands for the `TreeNode` reference.
- the setting descriptors (`SettingInfo.cs`), in module `Descriptors`:
  - the variant factory `Get`;
  - the stringifier `GetString`;
  - the typed `Value` of the Boolean, Range and List variants;
  - the possible values of a list setting and the drop-down converter;
  - the action of the Action variant;
  - the verb table the property grid shows as commands.

Each imperative operation is proved against a pure reference definition:

- `AddSettingPath` computes `SettingsTree.InsertTree` on the tree's value.
- `MergeSingleNodes` computes `SettingsTree.MergeTree` / `MergeForest`.
- `LoadSettingsList` computes `MergeForest(BuildForest(ids))`.
- `SettingVerbs.Verbs` computes `VerbNames` / `VerbTable`.

Lemmas then state what those definitions promise: paths are created and
found again, insertion is idempotent unless the id starts with '_', merging leaves no single-child node and
is idempotent, round trips of `Split`/`Join`, and the variant dispatch agrees
with the lookup by type name.

The settings library (`SettingsHelper`) is outside the repository. It is
replaced by `SettingsHelper.SettingItem`, whose state says what each call
answers, a failure included (`Result`).

What the program does, in the cases a reader might not expect:

- **Merging runs top-down.** A node with exactly one child takes the child's
  name and appends '_' and the child's text to its label. It then clears its
  children, so grandchildren are dropped and nothing below it is visited.
  Top-level nodes merge too; only the invisible root does not.
  - Any lone id with two or more segments ends as one leaf named by its first
    two: `LoneIdentifierCollapses`; for instance `X_Y_Z` ends as `X_Y`
    (`ChainCollapsesToTwoSegments`).
  - `A_B_C` with `A_B_D` ends as one leaf `A_B`, so neither id can be
    selected any more: `SiblingLeavesDropped`.
- **Adding an id that is already present fails.** `allSettings.Add` throws,
  so `loadSettingsList`, and with it the window's constructor, stops with an
  error and the tree stays unmerged. Insertion into the tree alone is
  idempotent unless the first segment is empty (`InsertIdempotent`).
- **An empty first segment is not rejected.** An id starting with '_' gives
  an empty key, which `TreeNodeCollection` never finds. So a new top-level
  node is added every time, with the rest of the id's chain below it
  (`InsertUnderscoreIdentifier`, `InsertUnderscoreTwice`).
- **Only one level of exception is unwrapped.** `GetString` and the
  possible-values fallback take the inner exception's message, not that of
  the innermost cause.
- **Some reads are not failure-safe.** A failing `Value` read and the
  `IsEnabled`/`IsApplicable`/`IsSetByGroupPolicy` flags reach the caller as
  a failure; only `Description` is failure-safe.
- **The value cache never becomes valid.** The line that would set `loaded` is
  commented out, so every `Value` read asks the store again. `Valid()`
  includes `!loaded`.

Keys are compared by exact equality. `TreeNodeCollection` and the registry
compare names case-insensitively. The model agrees with the program when no
two keys looked up in the same collection differ only in case, that is, when
no two id prefixes with the same number of segments differ only in case.
For example, `Foo_A` and `FOO_B` share one node `Foo` in the program but are
two top-level nodes here.

## Model

| member | source | states |
|---|---|---|
| Navigation.GetSettings | WindowsSettingsTool/MainForm.cs:25-45 | every pair returned comes from an entry whose type parsed, and every such entry yields its pair; no more pairs than entries |
| Navigation.GetSettingsAppend | WindowsSettingsTool/MainForm.cs:31-43 | the filter works entry by entry, so it keeps the registry's order |
| Navigation.ToMap | WindowsSettingsTool/MainForm.cs:54-59 | reference definition of the dictionary the pairs build, added in order (see `ToMapContents`) |
| Navigation.ToMapContents | WindowsSettingsTool/MainForm.cs:54-59 | the dictionary holds exactly the ids added; when no id repeats, each maps to its kind |
| Navigation.LoadStep | WindowsSettingsTool/MainForm.cs:57-80 | one more pair extends the dictionary and inserts the id's segments into the tree; an id already in the dictionary means the ids are not distinct |
| Navigation.MainForm.constructor | WindowsSettingsTool/MainForm.cs:107-111 | the window starts with an empty tree and no settings and then loads the registry's entries: with no repeated id the tree is `MergeForest(BuildForest(ids))` and the dictionary maps each id to its kind; with a repeated id the state is the unmerged one of the ids before it. No node carries a tag |
| Navigation.MainForm.LoadSettingsList | WindowsSettingsTool/MainForm.cs:51-85 | succeeds exactly when no id repeats; then the tree is `MergeForest(BuildForest(ids))` and the dictionary maps each id to its kind. On a repeated id it fails with the duplicate-key exception, leaving the unmerged tree and dictionary of the ids before it. No node carries a tag |
| Navigation.MainForm.AddSettings | WindowsSettingsTool/MainForm.cs:57-80 | from the cleared form, adds the pairs in order; succeeds exactly when no id repeats, with the tree `BuildForest(ids)` and the dictionary of all pairs, and otherwise stops at the first repeated id with the state built from the pairs before it |
| Navigation.MainForm.AddSetting | WindowsSettingsTool/MainForm.cs:59-79 | `Add` fails exactly for an id already present and then changes nothing; otherwise adds the id and inserts its segments into the tree |
| Navigation.MainForm.AddSettingPath | WindowsSettingsTool/MainForm.cs:63-79 | the new tree is `InsertTree(old tree, parts, None)`, the dictionary is unchanged, and the new nodes have no tag |
| Navigation.MainForm.NodeForKey | WindowsSettingsTool/MainForm.cs:70-77 | extends the path, then takes the owner's node with that key or adds one at the end; the insertion still pending moves below the node found or added |
| Navigation.MainForm.MergeSingleNodes | WindowsSettingsTool/MainForm.cs:87-105 | for a node: its new subtree is `MergeTree` of the old one, and nothing outside it changes; for the top level: the tree is `MergeForest` of the old tree |
| Navigation.MainForm.MergeEach | WindowsSettingsTool/MainForm.cs:101-104 | merges every node of a collection in turn: each ends with its merged view, and nothing outside their subtrees changes |
| Navigation.MainForm.AbsorbSingleChild | WindowsSettingsTool/MainForm.cs:89-100 | a node with exactly one child takes the child's name, appends '_' and the child's text to its label, and loses its children; any other node is unchanged |
| Navigation.MainForm.BeforeSelect | WindowsSettingsTool/MainForm.cs:113-146 | a node with a tag keeps it; an untagged node whose name is a known id gets a fresh descriptor of the kind's variant; an untagged unknown node stays untagged; no other node changes; the result is the node's tag |
| NodeTable.AddNode | WindowsSettingsTool/MainForm.cs:76 | `parentNodes.Add(key, part)`: a new childless node at the end of the table, appended to its owner's children |
| NodeTable.Absorbed | WindowsSettingsTool/MainForm.cs:93-99 | the table after a node with exactly one child has taken its name and text and dropped its children; no other record changes |
| SettingsTree.Split | WindowsSettingsTool/MainForm.cs:63 | at least one segment, none containing '_' |
| SettingsTree.JoinSplit | WindowsSettingsTool/MainForm.cs:63-75 | joining the segments with '_' gives back the id |
| SettingsTree.SplitJoin | WindowsSettingsTool/MainForm.cs:63-75 | splitting a '_'-joined list of '_'-free segments gives back the segments |
| SettingsTree.SplitBeforeSeparator | WindowsSettingsTool/MainForm.cs:63 | a '_'-free first segment followed by '_' is split off as the first part |
| SettingsTree.KeyIndex | WindowsSettingsTool/MainForm.cs:76 | a key found is non-empty and names the node at that position; a non-empty key not found names no node of the collection |
| SettingsTree.KeyIndexIsFirstMatch | WindowsSettingsTool/MainForm.cs:76 | the collection lookup finds the first node with the key |
| SettingsTree.KeyInjective | WindowsSettingsTool/MainForm.cs:70-74 | extending the same path with two segments gives the same key only for equal segments |
| SettingsTree.InsertCreatesPath | WindowsSettingsTool/MainForm.cs:63-79 | after inserting, following the segments finds one node per segment, keyed by the path so far and labelled by the segment, unless the first segment is empty (then see `InsertUnderscoreIdentifier`) |
| SettingsTree.InsertIdentifier | WindowsSettingsTool/MainForm.cs:63-79 | inserting an id whose first segment is not empty gives a chain whose k-th node is named by the first k segments and labelled by the k-th, ending at a node named by the id |
| SettingsTree.InsertUnderscoreIdentifier | WindowsSettingsTool/MainForm.cs:63-79 | inserting an id that starts with '_' appends one top-level node with empty name and label, leaving the others unchanged; below it the remaining segments form a chain whose k-th node is named by the first k + 1 segments and labelled by the (k + 1)-th, ending at a node named by the id |
| SettingsTree.InsertUnderscoreTwice | WindowsSettingsTool/MainForm.cs:63-79 | inserting such an id twice appends two equal top-level nodes: the empty key is never found again |
| SettingsTree.ChainNames | WindowsSettingsTool/MainForm.cs:65-75 | the j-th node on an inserted path is named by the first j+1 segments joined with '_' and labelled by the j-th segment |
| SettingsTree.InsertExistingPath | WindowsSettingsTool/MainForm.cs:76 | inserting segments whose path already exists changes nothing |
| SettingsTree.InsertIdempotent | WindowsSettingsTool/MainForm.cs:63-79 | inserting the same segments twice gives the tree that inserting them once gives, unless the first segment is empty (then see `InsertUnderscoreTwice`) |
| SettingsTree.InsertAddsOnlyMissingKey | WindowsSettingsTool/MainForm.cs:76 | at most one node is appended to a collection, only when its key is missing; the other nodes keep their names and labels |
| SettingsTree.InsertPlainIdentifier | WindowsSettingsTool/MainForm.cs:63-79 | an id without '_' becomes one new top-level leaf named and labelled by the id |
| SettingsTree.InsertKeepsWellNamed | WindowsSettingsTool/MainForm.cs:70-76 | every node stays named by its owner's name, '_' and its own label |
| SettingsTree.InsertKeepsUniqueKeys | WindowsSettingsTool/MainForm.cs:76 | no two siblings share a non-empty name |
| SettingsTree.BuildKeepsWellNamed | WindowsSettingsTool/MainForm.cs:57-80 | the built tree is well named and has unique keys |
| SettingsTree.BuildPlainIdentifiers | WindowsSettingsTool/MainForm.cs:57-80 | distinct ids without '_' build one top-level leaf each, in order |
| SettingsTree.Key | WindowsSettingsTool/MainForm.cs:70-74 | the next cumulative key: the segment alone at the top, else the path so far, '_' and the segment |
| SettingsTree.Join | WindowsSettingsTool/MainForm.cs:70-74 | the segments joined by '_', the inverse of `Split` (see `JoinSplit`, `SplitJoin`) |
| SettingsTree.InsertTree | WindowsSettingsTool/MainForm.cs:63-79 | reference definition of one id's insertion: reuse the first node with the next key or append one, then go on below it (see `InsertCreatesPath`, `InsertIdempotent`, `InsertKeepsUniqueKeys`) |
| SettingsTree.BuildForest | WindowsSettingsTool/MainForm.cs:57-80 | reference definition of the tree the ids build, inserted in order from an empty tree (see `BuildKeepsWellNamed`) |
| SettingsTree.Lookup | WindowsSettingsTool/MainForm.cs:76 | the nodes met when following the keys of a path, if every key is found (see `InsertCreatesPath`) |
| SettingsTree.MergeTree | WindowsSettingsTool/MainForm.cs:87-105 | reference definition of merging one node: a single child is absorbed and all children dropped, otherwise each child is merged (see `MergeLeavesNoSingleChild`, `MergeIdempotent`) |
| SettingsTree.LoneIdentifierCollapses | WindowsSettingsTool/MainForm.cs:57-105 | a lone id with two or more segments loads and merges to one leaf named and labelled by its first two segments |
| SettingsTree.MergeForest | WindowsSettingsTool/MainForm.cs:101-104 | each top-level node is merged on its own; their number is kept |
| SettingsTree.MergeLeavesNoSingleChild | WindowsSettingsTool/MainForm.cs:87-105 | after merging no node has exactly one child |
| SettingsTree.MergeWithoutSingleChild | WindowsSettingsTool/MainForm.cs:87-105 | a tree with no single-child node is left as it is |
| SettingsTree.MergeIdempotent | WindowsSettingsTool/MainForm.cs:87-105 | merging twice is merging once |
| SettingsTree.MergeDropsGrandchildren | WindowsSettingsTool/MainForm.cs:93-99 | a node with one child ends childless, named by the child, labelled by both labels joined by '_' |
| SettingsTree.BuildOneChain | WindowsSettingsTool/MainForm.cs:57-80 | an id `a_b_c` builds the chain `a` → `a_b` → `a_b_c`, labelled `a`, `b`, `c` |
| SettingsTree.ChainCollapsesToTwoSegments | WindowsSettingsTool/MainForm.cs:83-105 | a lone `X_Y_Z` ends as one leaf named and labelled `X_Y` |
| SettingsTree.SiblingLeavesDropped | WindowsSettingsTool/MainForm.cs:83-105 | `A_B_C` with `A_B_D` end as one leaf `A_B` |
| SettingsTree.BuildTwoSiblings | WindowsSettingsTool/MainForm.cs:57-80 | `A_B_C` with `A_B_D` build `A` → `A_B` → {`A_B_C`, `A_B_D`} |
| SettingsTree.PlainIdentifiersSurviveMerge | WindowsSettingsTool/MainForm.cs:51-105 | distinct ids without '_' build leaves that merging keeps, named by the ids in order |
| Descriptors.QualifiedName | WindowsSettingsTool/SettingInfo.cs:66 | the type name built from a kind's name (see `QualifiedNameInjective`) |
| Descriptors.VariantByTypeName | WindowsSettingsTool/SettingInfo.cs:66-75 | the class the name lookup finds, or the base class when none is found (see `DispatchAgreesWithTypeLookup`) |
| Descriptors.ValueTypeOf | WindowsSettingsTool/SettingInfo.cs:98-153 | the value type of each variant: `bool`, `int`, `string`, none for the base and Action classes |
| Descriptors.HasType | WindowsSettingsTool/SettingInfo.cs:111 | `value is TValue`; null is of no type |
| Descriptors.Default | WindowsSettingsTool/SettingInfo.cs:111 | `default(TValue)`: false, 0 and null |
| Descriptors.SettingInfo.Description | WindowsSettingsTool/SettingInfo.cs:21 | the store's description through `GetString` (see `ReadPathContainment`) |
| Descriptors.SettingInfo.IsEnabled | WindowsSettingsTool/SettingInfo.cs:22 | the store's flag, a failure passed on (see `ReadPathContainment`) |
| Descriptors.SettingInfo.IsApplicable | WindowsSettingsTool/SettingInfo.cs:23 | the store's flag, a failure passed on (see `ReadPathContainment`) |
| Descriptors.SettingInfo.IsSetByGroupPolicy | WindowsSettingsTool/SettingInfo.cs:24 | the store's flag, a failure passed on (see `ReadPathContainment`) |
| Descriptors.DeclaredMethods | WindowsSettingsTool/SettingInfo.cs:128-206 | the public methods each class declares; only Action's `Invoke` carries `[Browsable(true)]` |
| Descriptors.PublicMethods | WindowsSettingsTool/SettingInfo.cs:233 | the declared and the inherited public methods (see `VerbsOfEachVariant`) |
| Descriptors.IsVerb | WindowsSettingsTool/SettingInfo.cs:235-238 | a method with at least one `Browsable` attribute, all of them true |
| Descriptors.Dispatch | WindowsSettingsTool/SettingInfo.cs:63-76 | the Boolean, Range, List and Action variants are chosen exactly for their kinds |
| Descriptors.DispatchAgreesWithTypeLookup | WindowsSettingsTool/SettingInfo.cs:66-75 | the variant equals the one found by the type name built from the kind; every other kind gives the base class |
| Descriptors.QualifiedNameInjective | WindowsSettingsTool/SettingInfo.cs:66 | different kinds build different type names |
| Descriptors.SettingInfo.Get | WindowsSettingsTool/SettingInfo.cs:63-76 | a fresh descriptor of the dispatched variant over a fresh store item for the id, with its value unread and its possible values fetched |
| Descriptors.SettingInfo.constructor | WindowsSettingsTool/SettingInfo.cs:48-61 | records the id, creates the store item and takes the kind from it |
| Descriptors.GetString | WindowsSettingsTool/SettingInfo.cs:35-46 | "<null>" for a null result, the result's text otherwise; on failure the inner exception's message if there is one, else the failure's own |
| Descriptors.GetStringUnwrapsOneLevel | WindowsSettingsTool/SettingInfo.cs:44 | with three nested exceptions the middle message is returned, not the innermost |
| DotNet.ToString | WindowsSettingsTool/SettingInfo.cs:40 | a string is its own text, a boolean reads "True" or "False" |
| DotNet.Int32ToStringRoundTrip | WindowsSettingsTool/SettingInfo.cs:40 | the text of a boxed `int` is an optional '-' and decimal digits that read back as the number |
| DotNet.InnerOrSelf | WindowsSettingsTool/SettingInfo.cs:44 | the inner exception when there is one, else the exception itself |
| Descriptors.TypeByName | WindowsSettingsTool/SettingInfo.cs:66-67 | a class found by name is one of the four variants and has exactly that full name |
| Descriptors.ReadPathContainment | WindowsSettingsTool/SettingInfo.cs:21-24 | a failing description reads as the failure's message; the failing flags surface as failures |
| Descriptors.Coerce | WindowsSettingsTool/SettingInfo.cs:111 | the result always fits the type; a value of the type is kept, any other becomes the type's default |
| Descriptors.CoerceKeepsFittingValues | WindowsSettingsTool/SettingInfo.cs:111 | coercing changes nothing exactly for a fitting value, and is idempotent |
| Descriptors.SettingInfo.GetValue | WindowsSettingsTool/SettingInfo.cs:106-116 | every read asks the store again; a successful read gives the coerced value and stores it; a failed read fails with the store's exception |
| Descriptors.SettingInfo.SetValue | WindowsSettingsTool/SettingInfo.cs:117-121 | clears `loaded`, then writes to the store; fails exactly when the store rejects the write |
| Descriptors.SetThenGet | WindowsSettingsTool/SettingInfo.cs:104-121 | a value written to a store that keeps writes is the value read next |
| Descriptors.PossibleValuesOrMessage | WindowsSettingsTool/SettingInfo.cs:155-166 | the fetched values, or a one-element list holding the failure's (inner) message |
| Descriptors.GetStandardValuesSupported | WindowsSettingsTool/SettingInfo.cs:174-178 | standard values are offered exactly for a list setting |
| Descriptors.GetStandardValues | WindowsSettingsTool/SettingInfo.cs:180-191 | a list setting's possible values; none for anything else |
| Descriptors.SettingInfo.Invoke | WindowsSettingsTool/SettingInfo.cs:200-204 | invokes the setting's action once; a failure reaches the caller |
| Descriptors.SettingInfo.Site | WindowsSettingsTool/SettingInfo.cs:28-32 | a new, empty verb table for this descriptor on every read |
| Descriptors.InheritedMethods | WindowsSettingsTool/SettingInfo.cs:14-96 | none of the inherited public methods carries a `Browsable` attribute |
| Descriptors.VerbMethods | WindowsSettingsTool/SettingInfo.cs:233-244 | exactly the methods whose `Browsable` attributes exist and all say true |
| Descriptors.VerbTable | WindowsSettingsTool/SettingInfo.cs:240 | a name is in the table exactly when a verb method has it, and maps to that method |
| Descriptors.VerbStep | WindowsSettingsTool/SettingInfo.cs:233-244 | one more method appends one verb and one table entry when it qualifies, and nothing otherwise |
| Descriptors.VerbNames | WindowsSettingsTool/SettingInfo.cs:241 | one verb per method, in order, labelled with the method's name |
| Descriptors.VerbKeys | WindowsSettingsTool/SettingInfo.cs:240-241 | the table's names are exactly the verbs' texts |
| Descriptors.VerbsOfEachVariant | WindowsSettingsTool/SettingInfo.cs:194-206 | `Invoke` is the only verb of the Action variant; the other variants have none |
| Descriptors.VerbMethodsOfPlainSuffix | WindowsSettingsTool/SettingInfo.cs:235-236 | methods without `Browsable` attributes add no verbs |
| Descriptors.CollectVerbs | WindowsSettingsTool/SettingInfo.cs:229-246 | the verbs and the table are those of the qualifying methods, in order; the table's names are the verbs' texts |
| Descriptors.SettingVerbs.Verbs | WindowsSettingsTool/SettingInfo.cs:225-248 | clears and then rebuilds the table from the class's methods; returns the verbs, whose texts are exactly the table's names |
| Descriptors.SettingVerbs.VerbEvent | WindowsSettingsTool/SettingInfo.cs:250-258 | an unknown verb does nothing; the one known verb (`Invoke`, on an Action descriptor) runs the action once, and its failure arrives wrapped as reflection wraps it |
| Descriptors.TargetInvocation | WindowsSettingsTool/SettingInfo.cs:256 | unwrapping one level gives back the thrown exception |

## Left out

- The registry: `getSettings` takes the subkeys and their parsed `Type` values
  as input. Parsing the kind's name (`Enum.TryParse`, which ignores case) is
  not modelled; an entry arrives with the kind already parsed, or none.
- Case-insensitive key comparison: `TreeNodeCollection` and the registry
  compare names case-insensitively. Keys here are compared exactly, so ids
  whose prefixes differ only in case get separate nodes here.
- Navigation.MainForm.constructor: a repeated id makes the program's
  constructor throw out of `loadSettingsList`; a Dafny constructor cannot
  fail, so here it completes and leaves the unmerged state of the failed load.
- The Windows Forms display: the tree view widget, the property grid, the
  "Loading" placeholder object and `Update()` calls in
  `settingsTree_BeforeSelect`, and `filterText_TextChanged`, which is empty.
- `settingsTree_BeforeSelect`'s catch block: the modelled `SettingInfo.Get`
  cannot fail, so the exception the grid would show is not modelled.
- The reflection in the `SettingInfo` constructor (reading the library's
  private `settingItem` field and setting `gotValue`). It only reaches
  library internals; the model's store item is used directly.
- The `IDisposable`/`IComponent` members, `Id`, `Site`'s setter and every
  `SettingVerbs` member that throws `NotImplementedException` or returns a
  constant (`Component`, `Container`, `DesignMode`, `Name`, `GetService`).
- Reflection over types and methods: the classes `Type.GetType` can find and
  each class's public methods are declared lists. The names of the inherited
  methods are part of the model, not read from the runtime.
- The settings library's behaviour: `SettingItem` answers whatever its state
  says. Windows itself is not modelled.
- The members of `SettingType` besides Boolean, Range, List and Action are
  named as the library names them; only those four change what the tool does.
- `verbMethods.Add` throwing on a repeated method name: each class yields at
  most one verb (`VerbsOfEachVariant`), so the table is built by update.
- DotNet.Int32ToString: `ToString()` on an `int` formats with the current
  culture; the model assumes its negative sign is '-'.
- Descriptors.SettingInfo.SetValue: the value must have the variant's type;
  C#'s type system guarantees this for `Value`'s setter.
