# node-utils helpers, modelled in Dafny

This project models two groups of pure helpers from node-utils:

- the collection helpers of `index.js`: `merge`, `shift` and `executeIf`;
- the string helpers of `remedial.js`: `String.prototype.supplant` and `String.prototype.trim`.

They are modelled as ordinary functions and methods. The project proves the
properties the code and its test suite rely on.

Modules:

- `Js` (`js.dfy`): the part of JavaScript the helpers use.
  - Truthiness of a value (`Truthy`).
  - A plain object as an insertion-ordered property list, `Props<V> = seq<(string, V)>`, with each key at most once (`UniqueKeys`).
  - Property access `o[k]` (`Get`, and `Lookup`, where a missing property reads as `undefined`).
  - Property assignment `o[k] = v` (`Put`). An existing key keeps its place; a new key is appended.
  - `_.values` (`Values`).
- `Utils` (`utils.dfy`): index.js.
  - `merge` is a method whose two nested loops mirror `_.each` and `for … in`. It is proved equal to the left fold `MergeAll` of property assignments. Lemmas about `MergeAll` give the key set (the union of the arguments' keys) and the values (each key takes the value from the last argument that has it).
  - `shift` is a function that follows `slice` exactly, including a negative count.
  - `executeIf` is a method whose loop returns early. It is proved equal to `Choice`, which picks the first entry selected by the guard `i && context[i]` and otherwise falls back to `logic['']` or `false`. A dispatch-table handler takes no arguments, so it is modelled by the value it returns.
- `Remedial` (`remedial.dfy`): remedial.js.
  - The global replace of `/{([^{}]*)}/g` is an explicit left-to-right `Scan`. It splits the text into copied characters and placeholders. `Fill` then renders each placeholder, and a missing attribute renders as the text `undefined`.
  - `trim` keeps the part of the string from the first to the last non-white-space character. `CoreStart` finds where `^\s*` stops, and `CoreEnd` finds where `\s*$` starts. `IsSpace` is the character set that JavaScript's `\s` matches.

Inputs that stand in for host values:

- The attribute object of `supplant` is a `map<string, string>` whose values are already converted to text.
- The count `n` of `shift` is an `Option<int>`, where `None` is an absent (undefined) argument.
- Context values of `executeIf` are `Js.Value`s. Only their truthiness matters.

## Model

| member | source | states |
|---|---|---|
| `Js.Get` | index.js:9 | a property is found exactly when its key is among the object's keys |
| `Js.Put` | index.js:9 | after `o[k] = v`, `o[k]` is `v` and every other key reads as before; the key set grows by `k`; a new key is appended at the end |
| `Js.PutKeepsOrder` | index.js:9 | assigning to an existing key changes neither the number of properties nor any key's position |
| `Js.PutUnique` | index.js:9 | assignment keeps every key unique |
| `Js.Lookup` | index.js:47 | a property missing from the context reads as `undefined` |
| `Js.ValuesByKey` | index.js:19 | in an object, element `i` of `_.values` is what access by the key of property `i` yields |
| `Utils.Merge` | index.js:6-13 | the loops compute the left fold `MergeAll` into a fresh `{}`; the result has unique keys; its key set is the union of the arguments' key sets; every key's value is the one in the last argument that has it |
| `Utils.AssignKeys` | index.js:9 | the inner loop adds exactly the argument's keys to the accumulator's and keeps keys unique |
| `Utils.AssignGet` | index.js:9 | after the inner loop, a key of the argument carries the argument's value, and every other key is unchanged |
| `Utils.MergeKeys` | index.js:6-13 | the merged object's key set is exactly the union of the arguments' key sets, and each key occurs once |
| `Utils.MergeGet` | index.js:8-9 | later arguments win: for every key, the merged value is the one in the last argument that contains the key, and a key no argument has is absent |
| `Utils.AssignAppend` | index.js:8-9 | the inner loop is a left fold: assigning `x` and then `y` is the same as assigning their concatenation |
| `Utils.AssignDisjoint` | index.js:9 | assigning an object with none of the accumulator's keys appends its properties in their order |
| `Utils.AssignIntoEmpty` | index.js:7-9 | assigning an object into a fresh `{}` reproduces it, keys and order included |
| `Utils.MergeSingle` | index.js:6-13 | merging a single object yields an exact copy of it |
| `Utils.MergeDisjointExample` | spec/node-utils-spec.js:9-11 | `merge({a:1,b:2,c:3}, {d:4,e:5})` is `{a:1,b:2,c:3,d:4,e:5}` in that order |
| `Utils.MergeOverrideExample` | spec/node-utils-spec.js:12-14 | `merge(obj1, obj3)` is exactly `{a:6, b:2, c:3, e:7, h:8, d:9, j:10}`: the shared key `a` takes obj3's value in its old place, and obj3's other keys follow in their order |
| `Utils.DropCount` | index.js:19 | `n ? n : 1` is never 0; it is `n` when `n` is given and non-zero, and 1 when `n` is absent or 0 |
| `Utils.Shift` | index.js:18-20 | the result is a suffix of the values; for a positive count `c` its length is `max(0, len - c)`; for a negative count `c` it keeps `min(len, -c)` values |
| `Utils.ShiftAt` | index.js:19 | for a positive count `c`, element `i` of the result is value `i + c` of the arguments |
| `Utils.ShiftDefault` | index.js:19 | an absent `n`, an `n` of 0 and an `n` of 1 all drop exactly the first value |
| `Utils.ShiftSplits` | index.js:19 | the first `c` values followed by the result give back all the values |
| `Utils.ShiftExample` | spec/node-utils-spec.js:29-38 | `shift({0:'a',1:'b',2:'c',3:'d'})` is `['b','c','d']`, and with `n = 2` it is `['c','d']` |
| `Utils.FirstSelectedFrom` | index.js:46-50 | the index found is the first from the start whose key is non-empty with a truthy context value; none before it qualifies; `None` means no entry qualifies |
| `Utils.ExecuteIf` | index.js:45-53 | the scan with early return computes exactly `Choice`: the first selected entry's handler result, else the `''` handler's, else `false` |
| `Utils.FirstMatchWins` | index.js:46-49 | when entry `j` is the first selected one, `executeIf` returns handler `j`'s result |
| `Utils.LaterEntriesIgnored` | index.js:46-49 | entries after the selected one are never consulted: replacing them leaves the result unchanged |
| `Utils.NoMatchFallsBack` | index.js:52 | when no non-empty key selects, the result is the `''` handler's when present and `false` otherwise, whatever `context['']` is |
| `Utils.EmptyKeyNeverSelected` | index.js:47 | the scan never selects the entry with the empty key |
| `Utils.ExecuteIfExample` | spec/node-utils-spec.js:58-72 | with the table `{a, b, c, ''}` whose handlers return `'a'`, `'b'`, `'c'` and `'empty'`: context `{b: true}` gives `'b'`; `{a: false, c: true}` gives `'c'`; `{}` gives `'empty'` |
| `Remedial.BraceFreeLen` | remedial.js:32 | `[^{}]*` consumes the longest brace-free prefix and stops only at a brace or at the end |
| `Remedial.LeadingPlaceholder` | remedial.js:32 | a match at the first character is a `{`, a brace-free name and a closing `}` that lie inside the string |
| `Remedial.ScanNamesBraceFree` | remedial.js:32 | every placeholder the scan takes has a brace-free name |
| `Remedial.ScanRoundTrip` | remedial.js:32 | the pieces of the scan are consecutive, non-overlapping parts that spell out the input exactly |
| `Remedial.ScanFindsPlaceholder` | remedial.js:32 | the scan yields a placeholder if and only if the string contains a brace-free `{...}` group |
| `Remedial.Render` | remedial.js:33 | a missing attribute is rendered as the text `undefined` |
| `Remedial.SupplantNoPlaceholder` | remedial.js:32 | a string without a brace-free `{...}` group is returned unchanged |
| `Remedial.SupplantPlaceholder` | remedial.js:32-34 | a leading `{name}` becomes `attributes[name]` and the rest is substituted independently, so the inserted text is never rescanned |
| `Remedial.SupplantOpenBrace` | remedial.js:32 | a `{` whose next brace is another `{` (or which has none) is copied, and the scan moves on by one character |
| `Remedial.SupplantOther` | remedial.js:32 | any character other than `{` is copied |
| `Remedial.SupplantNoRescanExample` | remedial.js:32-34 | `"{a}"` with `a = "{b}"` gives the literal `"{b}"` |
| `Remedial.SupplantNestedExample` | remedial.js:32 | in `"{{a}}"` only the inner `{a}` is replaced, and the outer braces remain |
| `Remedial.SupplantMissingExample` | remedial.js:33 | `"x{y}"` with no attribute `y` gives `"xundefined"` |
| `Remedial.CoreStart` | remedial.js:38 | `^\s*` stops at the first non-white-space character at or after the start, and everything it skipped is white space |
| `Remedial.CoreEnd` | remedial.js:38 | `\s*$` starts just after the last non-white-space character, and everything after it is white space |
| `Remedial.Trim` | remedial.js:37-39 | the result neither starts nor ends with white space; it is a contiguous part of the input, between an all-white-space prefix and an all-white-space suffix |
| `Remedial.TrimCore` | remedial.js:38 | whenever the input is white space, then a core that neither starts nor ends with white space, then white space, trim yields exactly that core, interior white space included |
| `Remedial.TrimIdempotent` | remedial.js:38 | `trim(trim(s)) == trim(s)` |
| `Remedial.TrimEmpty` | remedial.js:38 | trim yields `""` exactly for the empty and the all-white-space strings |
| `Remedial.TrimExample` | remedial.js:38 | `"  a b \t"` trims to `"a b"` |

## Left out

- `exports.async` (index.js:25-28) schedules a call through `setTimeout`. Timers and deferred execution are not modelled.
- `typeOf` and `isEmpty` (remedial.js:8-29) inspect the host's dynamic types (`typeof`, `propertyIsEnumerable`, `splice`) and call the underscore library. They are not modelled.
- The re-export of underscore (index.js:1) is a foreign library.
- Installing `supplant` and `trim` on `String.prototype` is not modelled. They are plain functions on strings.
- `Sync` and `hasProperties`, used by the test suite, are not part of this model. Their implementation is not among the modelled files.
- Enumeration order: a property list's order is taken to be the object's enumeration order. JavaScript lists integer-like keys first, in ascending numeric order. That reordering is not modelled in `Put`, `Merge`, `Shift` or `ExecuteIf`.
- Js.Lookup: an object is only its own properties. JavaScript's `context[i]` (index.js:47) also reads through the prototype chain, including the built-ins of `Object.prototype` that every plain object has. So `executeIf({}, {constructor: f})` runs `f` in JavaScript, because `({}).constructor` is truthy, while the model returns `false`.
- Remedial.Render: `attributes[name]` (remedial.js:33) also reads through the prototype chain, so `"{toString}".supplant({})` inserts the source text of a function in JavaScript, while the model inserts `undefined`.
- Js.Put: `obj[item] = …` with `item == "__proto__"` (index.js:9) calls the prototype setter and adds no own property in JavaScript. The model appends an ordinary `__proto__` key.
- Utils.Merge: `for … in` (index.js:8) also visits inherited enumerable properties of an argument. The model visits only its own properties.
- Utils.Merge: the arguments are immutable values in the model, so "no argument is modified" holds by construction. Aliasing between the arguments and the result is not represented.
- Utils.Shift: the count is an integer or absent. A non-integer, NaN or string count, which `slice` would convert, is not modelled.
- Utils.ExecuteIf: a handler is its result value. The handler's side effects, and the error raised when a selected entry is not a function, are not modelled.
- Remedial.Render: attribute values are given already converted to text. JavaScript's `ToString` of non-string values (`null`, numbers, objects) is not modelled.
- Remedial.IsSpace: characters are Unicode scalar values, while JavaScript strings are UTF-16 code units. The white-space set follows the current ECMAScript definition: tab, vertical tab, form feed, space, no-break space, U+FEFF, the Unicode space separators, and the line terminators.
- Js.Value: numbers are integers. NaN and fractional numbers are not modelled; only truthiness is observed.
