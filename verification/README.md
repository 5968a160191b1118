# ammo: a Dafny model of the compilers, the sequencer, the registry and the store

This project models the sequential core of the ammo utility library. `dist/ammo.js` is
the ES2015 source and `dist/ammo-es5.js` is its transpiled twin with the same logic. One
model covers both, and the rows below cite whichever file states a property most
directly.

- **JsValue** (`js_value.dfy`): JavaScript values as the library sees them.
  - Primitives, opaque functions, arrays, and objects as ordered own-property lists.
  - Property read and write, `String(v)`, truthiness and `===`.
  - Array-index names.
- **JsString** (`js_string.dfy`): the string built-ins the compilers use, written out.
  - `indexOf` and its scan over all occurrences.
  - Clamping and swapping `substring`, and `replace` with a plain pattern (first or global).
  - `trim`, and the `>\s+<` → `><` collapse.
- **Markup** (`markup.dfy`): markup as text pieces and named placeholders. The main theorem
  says that the library's sequence of global replacements equals substituting the
  placeholders, when no text or name holds a brace.
- **Template** (`template.dfy`): `template(html, items)` up to the compiled string.
  - The `id:<letters>` identity token and the identifier splice.
  - The `{{name}}` observers and the observer spans.
  - One fragment per record, then brace stripping.
- **Iterate** (`iterate.dfy`): `compile(html, items)`.
  - `{iter}…{/iter}` blocks expanded once per key with `{key}`/`{value}`.
  - `{k}` substitution when there is no block.
- **Sequence** (`sequence.dfy`): `sequence()` with `chain` and `execute`.
  - A step is a function from the `response` snapshot to `resolve(v)`, `reject(e)` or
    neither.
  - `execute` returns the trace of the steps it called and the snapshots they saw.
- **Registry** (`registry.dfy`): `app(config)`. It covers the configuration check, node
  families, schemas, guarded node insertion, lookups, `configure` builders and
  `getConfig`.
- **Helpers** (`helpers.dfy`): `filter`, `extend` and `recurIter`.
- **Store** (`store.dfy`): the item operations of `store(key)` over an abstract storage.
  - The storage maps keys to what `JSON.parse` makes of the stored text.
  - Writing a value stores its JSON image, `JSON.parse(JSON.stringify(v))`.

`localStorage`, the DOM, timers and the network are not modelled. The storage is a
parameter of every store operation.

## Model

| member | source | states |
|---|---|---|
| JsValue.Get | dist/ammo-es5.js:702 | A property the object does not own reads as `undefined`. When names are distinct, a property reads as its listed value. |
| JsValue.Put | dist/ammo-es5.js:706 | After `obj[k] = v`, `k` reads as `v` and every other property reads as before. |
| JsValue.PutKeys | dist/ammo.js:743 | Assignment keeps the key order. A new key goes after all existing ones. |
| JsValue.ParseNatText | dist/ammo-es5.js:706 | Every array index below 2^32 − 1, written in decimal, is read back as the same index. |
| JsValue.ParseIndexText | dist/ammo.js:743 | A property name read as an array index is exactly the decimal text of that index. |
| JsString.IndexOfFirst | dist/ammo.js:494-495 | `indexOf` finds no occurrence between the start position and the position it returns. −1 means there is no occurrence from the start position on. |
| JsString.OccurrencesSorted | dist/ammo-es5.js:469-470 | Rescanning from one past each hit lists the occurrences in strictly increasing order. |
| JsString.OccurrencesComplete | dist/ammo.js:503-504 | The rescan misses no occurrence. |
| JsString.PairsAreZip | dist/ammo-es5.js:460-471 | The scan that advances both delimiters in step pairs the k-th opening with the k-th closing delimiter. It stops when either runs out. |
| JsString.Trim | dist/ammo.js:501 | `trim` returns a contiguous part of its input that neither starts nor ends with white space, and everything it cuts off on either side is white space. |
| JsString.TrimNoSpace | dist/ammo.js:501 | Text with no white space at all is its own trim. |
| JsString.CollapseGapsVisible | dist/ammo.js:501 | `replace(/>\s+</g, '><')` removes only white space: the non-space characters are unchanged and the string never grows. |
| JsString.CollapseGapsNoTag | dist/ammo-es5.js:467 | Text without `>` is left as it is by the collapse. |
| JsString.ReplaceAllAbsent | dist/ammo.js:530 | A global replacement of a pattern that does not occur changes nothing. |
| Markup.ReplaceEachTwo | dist/ammo.js:522-523 | Replacing `{key}` and then `{value}` is one replacement run over the two names. |
| Markup.ReplaceAllRender | dist/ammo.js:530 | On brace-free markup, globally replacing `{n}` resolves exactly the placeholders named `n` and no other text. |
| Markup.ReplaceEachExpands | dist/ammo-es5.js:495-497 | Replacing each name in turn fills every placeholder with its value, provided every placeholder is named in the list and nothing holds a brace. |
| Markup.ResolveTwice | dist/ammo.js:529-531 | Resolving one set of names after another equals resolving their union. |
| Template.GetIdentifier | dist/ammo.js:574-579 | Fails exactly when no `id:` followed by a letter occurs. Otherwise the identifier is the full letter run after the leftmost `id:` that has one. |
| Template.MatchedTokenIsIdentity | dist/ammo-es5.js:540-541 | `match[0]` is `id:` plus the letter run at the leftmost token. |
| Template.IdentityUnique | dist/ammo.js:560 | Only one position and letter run fit the global match's first result. |
| Template.SpliceAtIdentity | dist/ammo-es5.js:546-549 | The splice is found where the pattern matched. One character is dropped on each side of the token, with clamping at the ends. |
| Template.SetIdentifier | dist/ammo.js:580-585 | Fails exactly without a token. Otherwise the result is the markup before the token minus its last character, then `data-ammo-id=<field> data-ammo-id-value=<value>` verbatim, then the markup after the token minus its first character. |
| Template.GetObservers | dist/ammo.js:587-601 | One name per pair of the k-th `{{` with the k-th `}}`, in source order. There are as many names as the rarer delimiter has occurrences, so none if either is absent. |
| Template.ObserverBetweenDelimiters | dist/ammo-es5.js:552-566 | When the k-th `{{` comes before the k-th `}}` with no `}}` in between, the k-th name is exactly the text strictly between them. |
| Template.FillObserversExpands | dist/ammo.js:609-614 | On markup of plain text and named `{{name}}` placeholders, every placeholder becomes `<span data-ammo-observer="name">value</span>` and nothing else changes. |
| Template.FragmentSetsIdentifier | dist/ammo-es5.js:571-572 | Each record's copy starts from `setIdentifier` with the record's identifier value. |
| Template.StripBraces | dist/ammo.js:617 | The result holds no `{` or `}`. Brace-free text passes unchanged. |
| Template.StripBracesConcat | dist/ammo-es5.js:582 | Stripping braces from the concatenation strips each fragment separately. |
| Template.CompileTemplate | dist/ammo.js:586-619 | For records that are objects, fails exactly when the markup has no identity token, even for no records, because the identifier is read first. The compiled string holds no brace and is empty for no records. |
| Template.ObserversOfPieces | dist/ammo.js:587-601 | On markup of brace-free text and `{{name}}` placeholders, `getObservers` returns exactly the placeholder names in markup order, one per placeholder. |
| Template.CompileOneRecord | dist/ammo.js:574-619 | End to end for one record: markup of brace-free text and `{{name}}` placeholders around one `id:<letters>` token compiles to the text before the token, the two identity attributes with the record's identifier value, and the text after it. Each placeholder becomes its span holding the record's value. |
| Template.CompileTemplateConcat | dist/ammo-es5.js:568-583 | Compiling `a + b` is compiling `a` followed by compiling `b`: one fragment per record, in record order. |
| Iterate.IteratorsPaired | dist/ammo-es5.js:458-474 | The blocks pair the k-th `{iter}` with the k-th `{/iter}`. There are as many blocks as the rarer delimiter has occurrences. |
| Iterate.OneBlockIterators | dist/ammo.js:492-508 | Markup with one `{iter}` before one `{/iter}` has exactly that block, with its cleaned body. |
| Iterate.CompileConcat | dist/ammo.js:509-536 | The output is one fragment per record, concatenated in record order, and `""` for no records. |
| Iterate.CompileOne | dist/ammo-es5.js:477-500 | The output for one record is that record's fragment. |
| Iterate.SubstituteExpands | dist/ammo.js:528-532 | Without a block, every `{k}` placeholder becomes the text of `item[k]`, when each placeholder names an own key and no key or value holds a brace. |
| Iterate.NoBlockCompiles | dist/ammo-es5.js:494-499 | A record's fragment of markup without blocks is that substitution. |
| Iterate.ItemHtmlReplaces | dist/ammo.js:521-525 | One key's copy of the body replaces `{key}` globally, then `{value}` globally. |
| Iterate.ItemHtmlExpands | dist/ammo-es5.js:487-491 | For a body of plain text with `{key}`/`{value}` placeholders, one key's copy fills every `{key}` with the key and every `{value}` with the value. |
| Iterate.OneBlockRebuilds | dist/ammo-es5.js:481-493 | With one block, a record's fragment is the rebuild around that block. |
| Iterate.OneBlockCompiles | dist/ammo.js:515-527 | With one block, a fragment is the trimmed prefix, the body expanded once per key in key order, then the trimmed suffix. The body is the text between the delimiters with gaps collapsed and trimmed. |
| Iterate.OneBlockCuts | dist/ammo-es5.js:485 | The same, with the body written as the block's cleaned body and the suffix as the cut after `{/iter}`. |
| Iterate.SuffixAtEnd | dist/ammo.js:519 | When `{/iter}` ends the markup, the library's cut keeps `}`, while a cut without the argument swap keeps nothing. |
| Iterate.BlockAtEndLeavesBrace | dist/ammo.js:519 | As written, markup ending in its only block compiles to the prefix, the expanded block and a stray `}`. |
| Iterate.BlockAtEndCorrected | dist/ammo-es5.js:485 | With a cut that keeps the whole text after the block, the same markup compiles to the prefix and the expanded block only. |
| Iterate.BlockBeforeText | dist/ammo.js:519 | With text after the only block, a fragment as written ends with that text trimmed and missing the markup's last character. The corrected fragment keeps all of that text. |
| Iterate.ClosingTagLosesLastChar | dist/ammo.js:519 | A block followed by `</ul>` compiles, as written, to the prefix, the expanded block and `</ul`. The corrected cut gives `</ul>`. |
| Helpers.FilterFails | dist/ammo.js:219-220 | `filter` throws exactly when some item is `undefined` or `null`. |
| Helpers.FilterSound | dist/ammo.js:217-228 | Every reported pair holds an item from the input, at its original index, that satisfies the selection. |
| Helpers.FilterOrdered | dist/ammo-es5.js:203-210 | Reported indices strictly increase. |
| Helpers.FilterComplete | dist/ammo-es5.js:204-209 | Every selected position is reported. |
| Helpers.FilterExact | dist/ammo-es5.js:201-212 | `filter` reports, in original order, exactly the items with `item[key] === value`, each with its original index. It throws exactly on an `undefined` or `null` item. |
| Helpers.PutAllGet | dist/ammo.js:474 | After `Object.assign`, a property holds the source's value when the source has it, otherwise its old value. |
| Helpers.ExtendGet | dist/ammo-es5.js:429-444 | After `extend`, a property has the value given by the last extender that owns it, or the target's value when no extender does. The target passed again as an extender counts as none. |
| Helpers.AssignSelfSame | dist/ammo.js:474 | `Object.assign(obj, obj)` leaves the object unchanged, because each property is read live and written back. |
| Helpers.ExtendSkipsItself | dist/ammo.js:464-477 | `extend` equals assigning only the extenders that are not the target, wherever the target appears among them. |
| Helpers.ExtendItselfLast | dist/ammo.js:472-474 | Passing the target again last changes nothing. `extend(a, {x: 2}, a)` with `a = {x: 1}` gives `{x: 2}`. |
| Helpers.ExtendKeys | dist/ammo.js:464-477 | `extend` keeps the target's properties first, in order, and never lists a name twice. |
| Helpers.ExtendAppend | dist/ammo-es5.js:440-442 | Extending in two calls equals extending once with all the extenders. |
| Helpers.RecurIter | dist/ammo-es5.js:378-386 | The handler receives consecutive indices from the start. Every index but the last answered truthy. The loop completes only after a falsy answer and halts silently when the handler does not answer. |
| Helpers.RecurIterStops | dist/ammo.js:410-418 | A handler that answers truthy `n` times and then falsy is called `n + 1` times and completes. |
| Helpers.RecurIterFuel | dist/ammo-es5.js:380-385 | A loop that ended within its call bound runs identically with any larger bound. |
| Sequence.NewSequencer | dist/ammo-es5.js:725-727 | A new sequencer has no steps and `undefined` value and error. |
| Sequence.Chain | dist/ammo.js:767-772 | `chain` appends the step after the existing ones and keeps value and error. |
| Sequence.RunFrom | dist/ammo-es5.js:735-757 | A run from step `i` calls steps `i`, `i + 1`, … in order. It calls at least one step and at most the remaining ones. |
| Sequence.RunStops | dist/ammo.js:780-794 | Each call except the last resolved or rejected. The last either called neither or was the last step. |
| Sequence.RunSnapshots | dist/ammo-es5.js:743-756 | The first call sees the starting value and error. Each later call sees the previous snapshot, with `value` replaced by a `resolve` or `error` replaced by a `reject`. |
| Sequence.SnapshotIsLatest | dist/ammo-es5.js:744-755 | A step's snapshot holds the argument of the latest earlier `resolve` as `value` and of the latest earlier `reject` as `error`. Neither clears the other. |
| Sequence.RunFinal | dist/ammo.js:782-789 | After a run, the sequencer holds the snapshot left by the last call's outcome. |
| Sequence.Execute | dist/ammo-es5.js:735-757 | `execute` returns `true` exactly when the start index is at or past the step count, and then calls nothing. It never changes the steps. |
| Sequence.ExecuteOrder | dist/ammo.js:773-795 | For a start index within the steps, the calls run in registration order from that index, at most once each. The first call sees the sequencer's current value and error. |
| Sequence.ExecuteNonNumber | dist/ammo.js:775 | A non-number index behaves as 0. |
| Registry.BuiltinSchemas | dist/ammo-es5.js:788-791 | The built-in schemas are exactly `default` and `app`. |
| Registry.Initial | dist/ammo-es5.js:784-787 | A new application has no families, the built-in schemas and a truthy configuration (`config \|\| {}`). |
| Registry.App | dist/ammo-es5.js:775-791 | `app` fails exactly for a global configuration without a truthy name. A global application is installed under its name; any other is returned. |
| Registry.FamilyNames | dist/ammo-es5.js:796 | An array lists its elements' strings. Any other value is the one-element list of its string. |
| Registry.AddFamilies | dist/ammo-es5.js:797-801 | Each missing family is added empty, and existing families are kept as they are. |
| Registry.Augment | dist/ammo.js:833-842 | `augment` adds exactly the named families that are missing, each empty. Existing families, schemas and the configuration are unchanged. |
| Registry.AddSchema | dist/ammo-es5.js:804-809 | A schema is registered only under a new name with an array value. Existing schemas are never replaced. |
| Registry.Schema | dist/ammo-es5.js:810-815 | An unknown schema name changes nothing. A known one augments with the families it lists. |
| Registry.AddNode | dist/ammo-es5.js:816-822 | `addNode` changes the registry exactly when the family exists, the name is new in it and `func` is a function. It then adds only that node, never overwriting one. |
| Registry.GetNode | dist/ammo-es5.js:823-830 | `getNode` returns the registered function when there is one, and `false` otherwise. |
| Registry.CallNode | dist/ammo.js:870-877 | A node is called exactly when it exists, with `params`, or `{}` when `params` is `undefined`. |
| Registry.GetNodes | dist/ammo-es5.js:839-841 | `getNodes` returns one family for a truthy known name, and the whole family table otherwise. |
| Registry.Configure | dist/ammo-es5.js:842-854 | `configure` returns a builder exactly for an existing family. |
| Registry.GetConfig | dist/ammo-es5.js:858-865 | `getConfig` returns `false` for a name the configuration does not own, and the property's value for an owned one. |
| Registry.InitialValid | dist/ammo-es5.js:784-787 | A new application registers only functions (it has none). |
| Registry.AugmentValid | dist/ammo-es5.js:794-803 | `augment` keeps every registered node a function. |
| Registry.SchemaValid | dist/ammo.js:849-854 | `schema` keeps every registered node a function. |
| Registry.AddNodeValid | dist/ammo.js:855-861 | `addNode` keeps every registered node a function. |
| Registry.NodeExistsIff | dist/ammo-es5.js:855-857 | In a valid registry, `nodeExists` holds exactly when the name is registered in the family. |
| Registry.AddThenGet | dist/ammo.js:855-869 | A function added under a new name in an existing family is what `getNode` then returns. |
| Registry.FirstAddWins | dist/ammo-es5.js:818 | Adding under a name that already exists leaves the registry unchanged. |
| Registry.AddNodeOthers | dist/ammo-es5.js:819 | Adding one node leaves every other lookup as it was. |
| Registry.AugmentIdempotent | dist/ammo-es5.js:797-801 | Augmenting twice with the same families equals augmenting once. |
| Registry.AugmentKeepsNodes | dist/ammo.js:836-840 | `augment` removes no node. |
| Registry.AugmentThenAdd | dist/ammo-es5.js:794-822 | Once a family is augmented, a function added to it can be looked up. |
| Registry.ConfigureNode | dist/ammo-es5.js:846-849 | The builder's `node` is `addNode` on the builder's family. |
| Registry.AppFamilyNames | dist/ammo-es5.js:790 | The `app` schema lists `events`, `actions`, `common`, `modules` and `core`. |
| Registry.AugmentFresh | dist/ammo.js:833-842 | On a registry without families, `augment` creates exactly the named families, all empty. |
| Registry.AppSchemaFamilies | dist/ammo-es5.js:810-815 | `schema('app')` on a new application creates exactly its five families, all empty. |
| Registry.SchemaStays | dist/ammo.js:843-848 | A registered schema is never replaced. |
| Store.Open | dist/ammo-es5.js:638-640 | `store(key)` accepts exactly string keys and returns an error value for any other key. |
| Store.JsonCopy | dist/ammo-es5.js:669-674 | The JSON image is `undefined` exactly for `undefined` and functions. Arrays keep their length and objects stay objects. |
| Store.JsonFields | dist/ammo.js:709-711 | The JSON image of an object drops the properties without JSON text. |
| Store.Encode | dist/ammo-es5.js:672-674 | Writing `undefined` or a function leaves text `JSON.parse` rejects. |
| Store.GetData | dist/ammo-es5.js:688-691 | `getData` throws exactly on unparsable text, and never returns `null`: a missing entry and a stored `null` read as `undefined`. |
| Store.SetData | dist/ammo-es5.js:692-695 | `setData` writes the entry and changes no other one. |
| Store.RemoveData | dist/ammo.js:733-736 | `removeData` deletes only the entry. |
| Store.GetItem | dist/ammo.js:737-740 | `getItem` throws a `SyntaxError` on unparsable data and a `TypeError` when nothing is stored. |
| Store.ArrayLength | dist/ammo-es5.js:706 | A value is a valid new array length exactly when its `ToNumber` is an integer from 0 to 2^32 − 1, and the new length is that number. |
| Store.ArrayLengthValues | dist/ammo-es5.js:706 | `true` is length 1. `null`, `false` and `[]` are 0. A number, its decimal text and a one-element array of it are that number. Negative numbers, numbers past 2^32 − 1, `undefined`, plain objects and functions are refused. |
| Store.Assign | dist/ammo-es5.js:706 | A property write on an object is `Put`. It throws exactly on a primitive document or an invalid array length. |
| Store.SetItem | dist/ammo-es5.js:704-709 | `setItem` throws like `getItem` when nothing is stored or the data is unparsable. It changes no other storage entry. |
| Store.RemoveItem | dist/ammo-es5.js:710-715 | `removeItem` has the same error cases and leaves every other storage entry alone. |
| Store.JsonIsWellFormed | dist/ammo-es5.js:669-671 | A JSON value lists each property name once, at every depth. |
| Store.JsonCopyIsJson | dist/ammo-es5.js:672-674 | The JSON image of a well-formed value that has JSON text is a JSON value. |
| Store.JsonRoundTrip | dist/ammo-es5.js:669-674 | Encoding and decoding give back every JSON value unchanged. |
| Store.JsonCopyIdempotent | dist/ammo.js:706-711 | Writing a document's JSON image again changes nothing. |
| Store.GetJsonFields | dist/ammo-es5.js:700-703 | Reading a property of an object's JSON image gives the JSON image of the property. |
| Store.SetDataValid | dist/ammo-es5.js:692-695 | `setData` of a well-formed value keeps every stored document a JSON value. |
| Store.AssignWellFormed | dist/ammo-es5.js:706 | Assigning a well-formed value in a JSON document gives a well-formed document. |
| Store.SetItemValid | dist/ammo.js:741-752 | `setItem` and `removeItem` keep every stored document a JSON value. |
| Store.NothingStored | dist/ammo-es5.js:700-706 | With nothing stored, `getItem` and `setItem` throw a `TypeError`. |
| Store.GetItemObj | dist/ammo-es5.js:700-703 | `getItem` on a stored object reads the object's property. |
| Store.SetItemObj | dist/ammo-es5.js:704-709 | `setItem` on a stored object writes back the object's JSON image with the property assigned. |
| Store.SetThenGetItem | dist/ammo.js:737-746 | After `setItem(k, v)` on a stored object, `getItem(k)` returns the JSON image of `v`. |
| Store.GetJson | dist/ammo-es5.js:702 | A property of a JSON object is its own JSON image. |
| Store.SetItemOthers | dist/ammo-es5.js:700-709 | After `setItem(k, v)` on a stored JSON object, every other item key reads as before. |
| Store.RemoveThenGetItem | dist/ammo-es5.js:710-715 | After `removeItem(k)`, `k` reads as `undefined` and the stored object no longer lists it. |
| Store.SetThenGetIndex | dist/ammo.js:741-746 | An element written at an array index reads back as its JSON image, or `null` when it has none. |

## Left out

- DOM helpers are not modelled because they are browser engine calls. This covers the template instance's `render`, `update`, `getId` and `getIdValue`, and the observer bookkeeping fields (`observer.value`).
- `req`, `poll`, `buffer`, `randomInclusive`, `getUrlParam` and `jsonCopy` are not modelled because they are network I/O, timers, randomness, floating point and `window.location`.
- The type predicates (`is*`, `hasProp`, `hasMethod`, `hasKey`, `getKeys`) are not modelled. They are `typeof` reflection; the model's value datatype makes those distinctions directly.
- `localStorage` and the JSON text are not modelled. The storage is a map from keys to parsed content (`Store.Cell`), and `JSON.stringify` followed by `JSON.parse` is the JSON image `Store.JsonCopy`.
- The store's `setTemplate` is not modelled because it swaps the storage collaborator, which is a parameter of every operation here.
- Numbers are not modelled exactly, because floating point is out of scope.
  - Numbers are integers: there are no fractions and no NaN.
- Store.ArrayLength: reads a string as a number only when it is blank or decimal digits after trimming. A sign, a fraction, an exponent, a `0x`/`0o`/`0b` prefix and `Infinity` are read as NaN, so such a `length` is refused even where JavaScript accepts it (`"+3"`, `"3.0"`, `"0x10"`).
- `$` patterns in replacement values are not modelled. Replacement is literal.
- Iterate.ValueText: a function value is written as its text. In JavaScript, a function passed to `replace` is called as the replacer and its return value is inserted.
- Iterate.Substitute: a key is used as a literal `{k}` pattern. In JavaScript, `new RegExp('{' + k + '}', 'g')` reads a key made of digits, or of digits and one comma (`0`, `2,`, `1,3`), as a braced quantifier with nothing to repeat and throws a `SyntaxError`. Other regular-expression metacharacters in keys change what is matched. The model substitutes every key literally, and the expansion theorems ask only for keys and values without braces.
- Template.FillObservers: an observer name is used as a literal `{{name}}` pattern. Metacharacters in the name change the `RegExp` the library builds. So does a name made of digits, or of digits and one comma (`0`, `2,`, `1,3`): `{{0}}` is a `{` repeated a counted number of times and then `}`, and `{{n,m}}` with `n > m` throws a `SyntaxError`.
- Template.FillObserversExpands: asks only for brace-free names, so it also covers the counted-repeat names above, for which the library's result differs. With `item[0] = "v"`, JavaScript turns `{{0}}` into the text `0` and one span for each of the two `}`, and the model gives one span.
- Template.CompileOneRecord: the same holds for its placeholder names. A name of digits, or of digits and one comma, is compiled as a literal placeholder, unlike in JavaScript.
- Template.CompileTemplate: records are objects only, as property lists. In JavaScript a `null` or `undefined` record throws a `TypeError` at `item[identifier]`, and a string or number record is read through its own properties.
- Iterate.Compile: records are objects only, as property lists. In JavaScript a `null` or `undefined` record throws a `TypeError` at `Object.keys(item)`, and a string record uses its character indices as keys.
- Object identity is not modelled, apart from `extend`'s target, because datatypes compare by structure. `===` on two arrays or two objects is false in the model (`JsValue.StrictEquals`).
- `Object.keys` puts integer-like names first; the model lists properties in insertion order.
- Prototype properties and the own properties of functions are not modelled. A function is an opaque reference that renders as `function`.
- Multiple `{iter}` blocks run with the block positions of the original markup for every rebuild, exactly as in the library, but the model proves properties only for markup with one block.
- A step that calls `resolve` or `reject` more than once, or calls them later, is not modelled. Each step has at most one outcome, given at once.
- `Sequence.Execute`: a negative start index is modelled as a throw, because `chained[-1]` is `undefined` and calling it throws.
- Registry.App: installing a global application as `base[name] = base[name] || instance` is modelled only as the name it is installed under. The global object is not part of the model. The application keeps a copy of the configuration; in JavaScript it keeps the caller's object, so later writes to it are seen by `getConfig`.
- Registry.GetConfig: states the result only for object configurations; for array configurations it also reads `length` and index properties through `Member`.
- Helpers.RecurIter: the loop is bounded by a `fuel` number of handler calls, which stands for the unbounded recursion of the library. `Helpers.RecurIterFuel` shows that any bound large enough gives the same run.
- Helpers.StartIndex: the start index is an optional integer (`index || 0`). Other falsy values also count as 0, and other truthy start values are not modelled.
- `extend` with a target that is not an object is not modelled. The target is an object's property list.
- Helpers.Extend: the target passed again is the only object identity modelled (`Helpers.Itself`). Sources are read when their turn comes, which matches `Object.assign` because `extend` writes into no object other than the target. Getters and setters do not exist in the model.
- Registry.GetNodes: returns a copy of the family table or family, as a map, so the order of its keys is not modelled. In JavaScript it returns the live object, so a caller who later writes into it changes the registry.
- Registry.AddSchema: keeps a copy of the schema's names. In JavaScript the caller's array is kept, and later changes to it change the schema.
- Template.SetIdentifier: strings are sequences of Dafny characters, not UTF-16 code units. Cutting one unit before or after the token, or `length - 1` in `compile`, can split a surrogate pair in JavaScript. The model's cut never does.
- Helpers.RecurIter: a handler that calls its continuation more than once, or after returning, starts extra loops in JavaScript. The model's handler answers once, at once.
- Store.SetItemOthers: requires the stored document to be a JSON value, which `Store.SetItemValid` shows every write keeps.

## Findings

| source | as written | input that shows it | evidently intended | confidence | as-written member | corrected member |
|---|---|---|---|---|---|---|
| dist/ammo.js:519 | `template.substring(iter.indexEnd + tag.end.length, template.length - 1)` cuts the text after the block. When `{/iter}` ends the markup, the start is past the end, so `substring` swaps its arguments and keeps the markup's last character. | `compile('<ul>{iter}<li>{key}</li>{/iter}', [{a: 1}])` yields `<ul><li>a</li>}` | The text after a block that closes the markup is empty, giving `<ul><li>a</li>` | not executed | Iterate.BlockAtEndLeavesBrace | Iterate.BlockAtEndCorrected |
| dist/ammo.js:519 | The same cut ends at `template.length - 1`, so when text follows the block, the markup's last character is dropped. | `compile('<ul>{iter}<li>{key}</li>{/iter}</ul>', [{a: 1}])` yields `<ul><li>a</li></ul` | The whole text after the block is kept, giving `<ul><li>a</li></ul>` | not executed | Iterate.ClosingTagLosesLastChar | Iterate.BlockBeforeText |
