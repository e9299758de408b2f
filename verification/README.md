# Settings Inspector — a Dafny model of its key handling

The Settings Inspector extension adds one command to the editor. The command lists every
known configuration key grouped by origin: language-override blocks such as `[python]`,
built-in keys, and keys contributed by installed extensions. The user picks a key or
types one. The command then shows the key's value in each configuration layer and its
final resolved value in a report panel.

This project models the logic of `src/extension.ts` in Dafny and proves properties of it.
The host editor's registries, prompts and queries become plain parameters.

- `wrappers.dfy` (`Wrappers`): `Option` and `Result`.
- `js_value.dfy` (`JsValue`): the JavaScript values a parsed manifest or configuration
  layer can hold. It also defines truthiness, `typeof … === 'object'`, property access
  (which throws `TypeError` on `null`/`undefined`) and `Object.keys` (index strings for
  strings and arrays).
- `string_order.dfy` (`StringOrder`): the order JavaScript's default `sort()` uses for
  strings, proved to be a total order. The built-in sort is modelled by insertion sort.
  `SortedUnique` shows that every sorted permutation is the same list, so the engine's
  choice of algorithm does not affect any result.
- `key_classifier.dfy` (`KeyClassifier`): `getExtensionSettingKeys`, modelled as a method
  with nested loops. It is proved equal to a specification function. Lemmas cover the
  union characterisation, order independence, single schema versus one-element array, and
  extensions that contribute nothing.
- `known_keys.dfy` (`KnownKeys`): `getAllKnownSettingKeys`.
- `categorizer.dfy` (`Categorizer`): `getCategorizedSettings`, modelled as a method whose
  loop is proved against `Partition`. It is specified by `Categorize`: a partition by a
  priority-ordered rule, into three sorted lists.
- `html_escape.dfy` (`HtmlEscape`): `escapeHtml` and `pretty`.
- `report.dfy` (`Report`): the five value rows of the report.
- `picker.dfy` (`Picker`): the quick-pick list, resolving the user's answer to a key, and
  the outcome of one run of the command.

## Model

| member | source | states |
|---|---|---|
| `StringOrder.LessEqTotal` | src/extension.ts:46 | Any two strings are comparable in the code-unit order the default sort uses. |
| `StringOrder.LessEqTransitive` | src/extension.ts:46 | The code-unit order is transitive. |
| `StringOrder.LessEqAntisymmetric` | src/extension.ts:46 | Strings ordered both ways are equal. |
| `StringOrder.SortStrings` | src/extension.ts:71-73 | `.sort()` returns an ascending permutation of its input (same strings, same multiplicities). |
| `StringOrder.SortedUnique` | src/extension.ts:46 | Two ascending lists with the same multiset are equal, so the sorted result does not depend on the sort algorithm. |
| `KeyClassifier.UnionAllCharacterization` | src/extension.ts:11-27 | Collecting over a list succeeds iff no item throws; the result then holds exactly the keys some item declares. |
| `KeyClassifier.UnionAllOrderIndependent` | src/extension.ts:11-27 | The collected keys depend only on which items occur, not on their order or repetition. |
| `KeyClassifier.DeclaredKeysCharacterization` | src/extension.ts:8-31 | The extension-key set is exactly the union of the per-extension key sets; it is an error iff some extension's manifest throws. |
| `KeyClassifier.ExtensionKeysCharacterization` | src/extension.ts:12-27 | One extension throws iff one of its schemas is `null` or `undefined`; otherwise its keys are exactly the `properties` names of its schemas. |
| `KeyClassifier.DeclaredKeysAreSchemaKeys` | src/extension.ts:8-31 | The extension-key set is exactly the `properties` names of every schema of every extension; it is an error iff some extension has a `null` or `undefined` schema. |
| `KeyClassifier.DeclaredKeysOrderIndependent` | src/extension.ts:11-27 | Reordering the installed extensions does not change the extension-key set. |
| `KeyClassifier.SingleSchemaAsArray` | src/extension.ts:15-18 | A single truthy, non-array `configuration` object declares the same keys as a one-element array holding it. |
| `KeyClassifier.SchemaOrderIndependent` | src/extension.ts:18-27 | Reordering the schemas of a `configuration` array does not change the extension's keys. |
| `KeyClassifier.NoContributionAddsNothing` | src/extension.ts:12-22 | An extension without a truthy `contributes`, `configuration` or any schema's `properties` adds nothing to the set. |
| `KeyClassifier.NullSchemaEntryThrows` | src/extension.ts:15-22 | A `null` `configuration` contributes nothing, but a `null` entry in a `configuration` array throws `TypeError`. |
| `KeyClassifier.ExtensionSettingKeys` | src/extension.ts:8-31 | The nested loops that fill the `Set` return exactly the declared-key set, or the `TypeError` a null schema raises. |
| `KnownKeys.KnownSettingKeys` | src/extension.ts:36-47 | The result is ascending. It is empty when the default layer is absent, falsy or not an object; otherwise it is a permutation of that layer's `Object.keys`. |
| `KnownKeys.KnownKeysOfObject` | src/extension.ts:40-46 | For an object default layer, the known keys are exactly its property names, each once, and equal any other sorted listing of them. |
| `Categorizer.PartitionMembers` | src/extension.ts:60-68 | After the loop, a key is in the overrides iff visited and bracketed. It is in the extension list iff visited, unbracketed and declared by an extension. It is built-in iff visited, unbracketed and undeclared. |
| `Categorizer.Partition` | src/extension.ts:56-68 | The three arrays the loop fills hold every visited key exactly as often as visited. Override keys are bracketed; extension keys are unbracketed and in the extension set; built-in keys are unbracketed and not in it. |
| `Categorizer.Categorize` | src/extension.ts:52-75 | The categorised lists are sorted and together are a permutation of the known keys. A key is an override iff bracketed. It is an extension key iff unbracketed and in the extension set. It is built-in iff unbracketed and not in the set. |
| `Categorizer.CategoriesDisjoint` | src/extension.ts:60-68 | The three lists are pairwise disjoint. With distinct known keys, no list repeats a key. |
| `Categorizer.CategorizeExample` | src/extension.ts:60-73 | `[python]`, `editor.fontSize` and `myext.enableFoo` (an extension key) go to overrides, builtIn and extension respectively. |
| `Categorizer.CategorizedSettings` | src/extension.ts:52-75 | The loop-and-sort method returns `Categorize` of the extension keys and the known keys. It throws exactly when collecting the extension keys throws. |
| `HtmlEscape.ThreePassesAreOnePass` | src/extension.ts:77-82 | The three global replacements, `&` first, equal escaping each character once. |
| `HtmlEscape.UnescapeEscapeEach` | src/extension.ts:77-82 | Decoding `&amp;`, `&lt;`, `&gt;` undoes the character-wise escape. |
| `HtmlEscape.AmpersandsStartEntities` | src/extension.ts:77-82 | Every `&` in the escaped text starts one of the three entities. |
| `HtmlEscape.EscapeHtml` | src/extension.ts:77-82 | The output has no `<` or `>`, every `&` starts an entity, and decoding the entities returns the input. |
| `HtmlEscape.EscapeHtmlAppend` | src/extension.ts:77-82 | Escaping distributes over concatenation. |
| `HtmlEscape.EscapeTag` | src/extension.ts:77-82 | `<name>` is escaped to `&lt;name&gt;` (for example, a `<script>` tag is shown as text). |
| `HtmlEscape.EscapeEachPlain` | src/extension.ts:77-82 | Text without `&`, `<`, `>` is unchanged by escaping. |
| `HtmlEscape.EscapedTextIsUnique` | src/extension.ts:77-82 | A text with no `<` or `>`, whose every `&` starts an entity, is the escape of what it decodes to. So the three properties of `EscapeHtml` single out its output. |
| `HtmlEscape.ShowsValueExactly` | src/extension.ts:90-102 | A cell accepted as showing a serialisation is exactly the opening markup, the escaped serialisation and `</div>`. |
| `HtmlEscape.Pretty` | src/extension.ts:87-103 | `undefined` gives the italic placeholder. Any other value gives the fixed value block around text with no `<` or `>`, whose every `&` starts an entity, and which decodes to the serialised value; by `ShowsValueExactly` that text is the escaped serialisation. |
| `Report.ReportRows` | src/extension.ts:124-147 | The rows are Default, User, Workspace, Folder, Final Resolved, in that order. Each cell is the placeholder for an absent value, or the value block holding that layer's escaped serialisation. |
| `Picker.KeyItems` | src/extension.ts:167-173 | One plain entry per key, labelled with the key, in order. |
| `Picker.PickerItems` | src/extension.ts:163-174 | The list is: the free-text entry, the "Language Overrides" separator and overrides, the "Built‑in Settings" separator and built-in keys, the "Extension Settings" separator and extension keys. Its length is 4 plus the number of keys. |
| `Picker.EveryKeyIsListed` | src/extension.ts:163-174 | Every categorised key has an entry in the list. |
| `Picker.ListedEntriesAreKeys` | src/extension.ts:163-174 | Every non-separator entry after the free-text one is a categorised key, labelled with itself. |
| `Picker.ResolveSetting` | src/extension.ts:176-193 | A cancelled pick yields no key. The free-text label leads to the typed text, where cancelled or empty text yields no key. Any other label is the key verbatim. The key is never empty. |
| `Picker.PickedKeyIsInspected` | src/extension.ts:184-191 | Picking a key entry inspects that key, whatever would have been typed. |
| `Picker.InputBoxOnlyAfterFreeTextEntry` | src/extension.ts:184-191 | The typed text matters only when the free-text entry was picked. |
| `Picker.InspectCommand` | src/extension.ts:160-213 | A throw while collecting keys aborts the run. A cancelled or empty answer ends it silently. An unknown key gives `Setting "<key>" not found.`. A known key opens a panel titled `Settings Inspector: <key>`, carrying the host's inspection and final value. |

## Left out

- Host calls are not modelled; their results are parameters or outcome values. This covers `vscode.extensions.all` (a list of `Extension`s), `getConfiguration().inspect('')` (an `Option<Inspection>`), `inspect(key)` and `get(key)` (functions), `showQuickPick` (a function from the item list to the pick), and `showInputBox` (the typed answer). It also covers `showErrorMessage`, `createWebviewPanel`, `registerCommand` and `context.subscriptions`, which become `CommandOutcome` values or are omitted.
- `JSON.stringify(value, null, 4)` is a foreign serializer and is passed to `Pretty` and `ReportRows` as the `stringify` parameter.
- `Report.ReportRows`: models only the five value cells of `getHtml`, not its static markup. The page heading interpolates the key without escaping (src/extension.ts:116), so no claim is made that the whole document is escaped.
- `Picker.InspectCommand`: the panel outcome carries the key, inspection and final value that `getHtml` receives, not the rendered page. `async`/`await` suspension, cancellation timing, and the empty `deactivate` are not modelled.
- Numbers are integers. Only the zero test of truthiness is modelled; `NaN`, `-0` and fractions are not.
- A `char` stands for one UTF-16 code unit. Dafny's characters are Unicode scalar values, so the code-unit order of surrogate pairs is not modelled.
- `Object.keys` returns object property names in insertion order. The rule that lists integer-like names first is not modelled. Its results are used only as a set or sorted, so no modelled outcome depends on that order.
- Parsed objects are taken to have distinct property names, as `JSON.parse` produces them. `Lookup` returns the first property of a name. `KnownKeysOfObject` states its no-duplicates result under that assumption.
- Property access models only the three names the code reads (`contributes`, `configuration`, `properties`). None of them exists on a prototype, so primitives and arrays yield `undefined`.
- The engine's sort algorithm is not modelled; insertion sort stands in for it, and `SortedUnique` shows the result is the same for any correct sort.
- Not every malformed configuration section is skipped. A `null` entry inside a `configuration` array makes `config.properties` throw `TypeError`. That exception leaves `getExtensionSettingKeys` and aborts the command (`NullSchemaEntryThrows`, `Threw` in `InspectCommand`); the model keeps that behaviour.
- Typed text is used verbatim, with no trimming. An empty string counts as "nothing typed", as the `!setting` test does. Labels are compared by text, so a configuration key whose text equals the free-text entry's label would also open the input box.
