# react-schema-viewer: the schema registry and the table builder, in Dafny

The schema viewer shows JSON Schema documents as nested tables. Its core has two parts, and
this project models both and proves properties of the model:

- **The registry** (`Schemas`, in `src/components/SchemaViewer/Schemas.js`). It indexes
  documents by `$id`, with one trailing `#` or `#/` stripped. A lone document without an id
  gets `schema.json`. It resolves an id `<path>#<fragment>` by walking the fragment as a
  JSON Pointer. Each segment is percent-decoded, as `decodeURIComponent` does, then
  unescaped as in section 4 of RFC 6901 (`~1` before `~0`).
- **The table builder** (`schemaTable`, `combination` and `objectTable`, in
  `src/components/SchemaViewer/index.js`). It resolves an id and picks the required set in
  force. Then it dispatches: `anyOf`, `allOf`, `oneOf`, then `$ref`, then the object or
  array shape, then a plain row. It recurses into the child ids it builds:
  `<id>/<keyword>/<i>`, `<id>/properties/<name>`, `<id>/additionalProperties` and
  `<id>/items`.

The JSX the builder returns is modelled as a `Node` tree, one constructor per kind of table
section. The builder recurses without a guard, so in the source a `$ref` cycle recurses until
the stack overflows. Here every resolved schema costs one unit of `fuel`, and a call with no
fuel left yields an `OutOfFuel` marker. `SchemaViewer.EnoughFuel` proves the marker never
appears when no `$ref` is reachable, every member name is plain (no `/`, `~`, `%` or `#`)
and the fuel is at least the nesting depth. The plain names matter: a property name with a
`#` can send the builder round forever on a schema without any `$ref`
(`SchemaViewer.HashNameNeverEnds`). Every
exception the source lets escape becomes a `Failure` of a `Result`:

- a URIError from `decodeURIComponent`;
- the `Error` for a document without `$id`;
- the TypeErrors of reading `$id` of a `null` document and of assigning `$id` to a lone
  boolean, number or string document;
- the TypeErrors of a non-iterable `required`, of a composition keyword that is not an
  array, of a `null` alternative, and of an array schema without `items`.

Files, each one module:

| file | module | contents |
|---|---|---|
| `wrappers.dfy` | `Wrappers` | `Option` (`undefined` or a value) and `Result` (a value or the exception) |
| `json.dfy` | `Json` | JSON values with ordered members, JavaScript truthiness, `v[key]`, `Object.entries`, `String(v)` |
| `pointer.dfy` | `Pointer` | `split`, replace-all, the unescaping of RFC 6901, `decodeURIComponent`, and `encodeURIComponent` as the encoding it inverts |
| `schemas.dfy` | `Schemas` | the registry: `Register` and the class `Schemas` with `Create` and `GetSchema`; `Resolve` and its lemmas |
| `viewer.dfy` | `SchemaViewer` | the builder `Build` and its lemmas, and the entry call `Render` |

The model keeps these behaviours of the source as they are:

- Duplicate keys: the last document stored under a key wins. No duplicate-id error is
  raised (`Schemas.RegisterContents`).
- Cycles: there is no cycle guard. Fuel bounds the recursion instead of a visited set.
- `$ref`: a reference drops the inherited required set (`SchemaViewer.ReferenceFollowed`,
  `SchemaViewer.RequiredNotPassedThroughReferences`).
- Truthiness, not presence: the sections are unwrapped when the name is falsy (not only
  when it is `null`). Without `properties`, any truthy `additionalProperties`, `true`
  included, is recursed into. With `properties`, only `additionalProperties === true` adds
  the informational section, and any other value is ignored.

## Model

| member | source | states |
|---|---|---|
| Json.Truthy | src/components/SchemaViewer/index.js:91 | JavaScript's ToBoolean: `false`, `null`, `0` and `""` are falsy, arrays and objects truthy; `WalkFindsTruthy` and `ResolveFindsTruthy` show the registry never hands out a falsy value |
| Json.Lookup | src/components/SchemaViewer/Schemas.js:33 | a lookup by name: it finds the first member named `key`, and nothing exactly when there is none (`LookupFirst`) |
| Json.Member | src/components/SchemaViewer/Schemas.js:33 | `v[key]`: by name on objects (`LookupFirst`), by canonical index on arrays (`ArrayIndexOfNatToString`), and always shallower than `v` (`MemberIsShallower`) |
| Json.Entries | src/components/SchemaViewer/index.js:29 | `Object.entries`: an object's members as declared; for an array one entry per element, in order, keyed by the index's numeral (read back as that element by `EntryFound`); nothing otherwise |
| Json.ToJsString | src/components/SchemaViewer/index.js:114 | `${v}`: a string is kept as it is; a non-negative number becomes a numeral that reads back as that index; a negative one starts with `-` |
| Json.LookupFirst | src/components/SchemaViewer/Schemas.js:33 | `v[key]` on an object finds the first member named `key`, and finds nothing exactly when no member has that name |
| Json.NatToString | src/components/SchemaViewer/index.js:80 | `${i}` is a non-empty canonical decimal numeral: digits only, no leading zero, more than one digit exactly from 10 on |
| Json.ArrayIndexOfNatToString | src/components/SchemaViewer/index.js:80 | the numeral written for alternative `i` reads back, as an array key, as index `i` |
| Json.MemberIsShallower | src/components/SchemaViewer/Schemas.js:33 | every value a lookup finds is strictly shallower than the value it is found in |
| Pointer.Split | src/components/SchemaViewer/Schemas.js:25 | `split` never returns an empty array |
| Pointer.SplitJoin | src/components/SchemaViewer/Schemas.js:25 | no part of `s.split(sep)` contains `sep`; there are two or more parts exactly when `sep` occurs in `s`; joining the parts with `sep` gives `s` back |
| Pointer.JoinTwo | src/components/SchemaViewer/Schemas.js:25 | joining two parts puts exactly one separator between them |
| Pointer.SplitAfterFirst | src/components/SchemaViewer/Schemas.js:25 | a separator-free prefix before the first separator is exactly the first part |
| Pointer.SplitAppend | src/components/SchemaViewer/Schemas.js:32 | appending `/` and a `/`-free segment to a fragment appends exactly one segment to its split |
| Pointer.SplitOfPlain | src/components/SchemaViewer/Schemas.js:25 | a string without the separator splits into itself alone |
| Pointer.ReplaceAll | src/components/SchemaViewer/Schemas.js:50 | a global replace leaves a string where the pattern cannot start unchanged |
| Pointer.ReplaceAllMiss | src/components/SchemaViewer/Schemas.js:50 | where the pattern does not start, the first character is kept and the scan moves on by one |
| Pointer.ReplaceAllHit | src/components/SchemaViewer/Schemas.js:50 | an occurrence of the pattern is replaced and the scan resumes after it |
| Pointer.UnescapeJsonPointer | src/components/SchemaViewer/Schemas.js:49-51 | a segment without `~` is its own key |
| Pointer.UndoSlashes | src/components/SchemaViewer/Schemas.js:50 | the `~1` pass over an escaped name restores every `/` and leaves every `~0` in place |
| Pointer.UndoTildes | src/components/SchemaViewer/Schemas.js:50 | the `~0` pass then restores every `~` |
| Pointer.UnescapeEscape | src/components/SchemaViewer/Schemas.js:49-51 | unescaping inverts the escaping of section 3 of RFC 6901 for every string |
| Pointer.UnescapeOrder | src/components/SchemaViewer/Schemas.js:50 | `~1` is undone before `~0`: `~01` reads as `~1`, `~1` as `/`, `~0` as `~` |
| Pointer.UnescapeFragment | src/components/SchemaViewer/Schemas.js:45-47 | percent-decoding, then the JSON Pointer escapes: a segment without `%` and `~` is its own key (`UnescapeFragmentPlain`), and each stage is inverted by its encoder (`PercentDecodeEncode`, `UnescapeEscape`) |
| Pointer.PercentDecode | src/components/SchemaViewer/Schemas.js:46 | `decodeURIComponent`: the identity on `%`-free text (`PercentDecodePlain`), and the inverse of `encodeURIComponent` (`PercentDecodeEncode`) |
| Pointer.DecodeFrom | src/components/SchemaViewer/Schemas.js:46 | the decoding loop: a `%`-free rest is kept (`DecodeFromPlain`), and text made of readable pieces decodes to their characters (`DecodeConcatMap`) |
| Pointer.DecodeEscape | src/components/SchemaViewer/Schemas.js:46 | one escape sequence: a lead octet and its continuations give one well-formed code point (`DecodeLead`); anything else is the URIError |
| Pointer.EscapedOctet | src/components/SchemaViewer/Schemas.js:46 | an escape `%XY` read at `k` lies inside the string, starts with `%` and denotes an octet below 256 |
| Pointer.DecodeFromPlain | src/components/SchemaViewer/Schemas.js:46 | decoding the rest of a string that holds no `%` gives that rest unchanged, and never throws |
| Pointer.PercentDecodePlain | src/components/SchemaViewer/Schemas.js:46 | `decodeURIComponent` of a `%`-free string is that string |
| Pointer.UnescapeFragmentPlain | src/components/SchemaViewer/Schemas.js:45-47 | a segment without `%` and `~` unescapes to itself |
| Pointer.HexDigit | src/components/SchemaViewer/Schemas.js:46 | the upper-case hexadecimal digit written for a value below 16 reads back as that value |
| Pointer.EscapesRead | src/components/SchemaViewer/Schemas.js:46 | each `%XY` escape written for a run of octets reads back, at its own position, as its octet |
| Pointer.DecodeLead | src/components/SchemaViewer/Schemas.js:46 | a lead octet with n leading ones, whose continuation octets give a well-formed code point, decodes to that character and decoding resumes 3n characters on |
| Pointer.DecodesAnEncodedChar | src/components/SchemaViewer/Schemas.js:46 | `decodeURIComponent` reads the `encodeURIComponent` form of any character back as that character and resumes right after it |
| Pointer.DecodeConcatMap | src/components/SchemaViewer/Schemas.js:46 | a string written piece by piece, where each piece reads back as its character, decodes to the whole string |
| Pointer.PercentDecodeEncode | src/components/SchemaViewer/Schemas.js:46 | `decodeURIComponent` undoes `encodeURIComponent` for every string, and never throws on its output |
| Schemas.StripHash | src/components/SchemaViewer/Schemas.js:14 | `replace(/#\/?$/, '')`: exactly one trailing `#` or `#/` is removed (`StripHashSuffixes`) |
| Schemas.StripHashSuffixes | src/components/SchemaViewer/Schemas.js:14 | exactly one trailing `#` or `#/` is removed, and a key ending in neither is kept |
| Schemas.SetMember | src/components/SchemaViewer/Schemas.js:7 | assigning `$id` makes it read back as the new value and leaves every other member as it was |
| Schemas.WithDefaultId | src/components/SchemaViewer/Schemas.js:6-8 | unless there is exactly one document and it lacks a truthy `$id`, the documents are passed on unchanged; a lone object gets `$id` `schema.json` and keeps its other members; a lone `null` or primitive throws |
| Schemas.IdKey | src/components/SchemaViewer/Schemas.js:11-14 | a document is stored exactly when it is not `null` and has a truthy string `$id`, under that id with its hash suffix stripped; an exception names the document's index |
| Schemas.LoneDocumentWithoutId | src/components/SchemaViewer/Schemas.js:6-14 | a lone id-less object gets `$id` `schema.json`, and a lone array is stored under `schema.json` as it is, each the only entry and found by `schema.json#`; a lone `null` or primitive throws its TypeError |
| Schemas.IndexFrom | src/components/SchemaViewer/Schemas.js:10-15 | the constructor's loop: it throws the first document's exception (`IndexFromFailure`), keeps exactly the documents' keys (`IndexFromKeys`), and last write wins (`IndexFromLast`, `IndexFromUntouched`) |
| Schemas.Register | src/components/SchemaViewer/Schemas.js:2-16 | `new Schemas(docs)`: its failures (`RegisterFailure`, `SeveralDocumentsNeedIds`), its contents (`RegisterContents`) and the lone-document default (`LoneDocumentWithoutId`) |
| Schemas.IndexFromFailure | src/components/SchemaViewer/Schemas.js:10-15 | the loop throws exactly when some remaining document has no usable `$id`, and throws the first such document's exception |
| Schemas.RegisterFailure | src/components/SchemaViewer/Schemas.js:6-14 | apart from a lone id-less document, construction throws exactly when a document lacks a usable `$id`, with the exception of the first one |
| Schemas.SeveralDocumentsNeedIds | src/components/SchemaViewer/Schemas.js:6-13 | unless there is exactly one document, an id-less document makes construction throw, at or before its index |
| Schemas.IndexFromStep | src/components/SchemaViewer/Schemas.js:14 | one loop step stores the document under its stripped key |
| Schemas.IndexFromKeys | src/components/SchemaViewer/Schemas.js:10-15 | the loop's keys are the starting keys plus the key of every remaining document |
| Schemas.IndexFromLast | src/components/SchemaViewer/Schemas.js:10-15 | a document no later document shares a key with is the entry under its key |
| Schemas.IndexFromUntouched | src/components/SchemaViewer/Schemas.js:10-15 | an entry no remaining document's key hits survives the loop |
| Schemas.RegisterContents | src/components/SchemaViewer/Schemas.js:10-15 | apart from a lone id-less document, last write wins: the registry holds exactly the documents' keys, and under each key the last document stored there |
| Schemas.Schemas.Empty | src/components/SchemaViewer/Schemas.js:3 | a new registry is empty |
| Schemas.Schemas.Set | src/components/SchemaViewer/Schemas.js:14 | `_schemas.set(key, doc)` updates that one key and nothing else |
| Schemas.Schemas.Create | src/components/SchemaViewer/Schemas.js:2-16 | the constructor's loop throws what `Register` throws, or yields a fresh registry holding exactly `Register`'s map |
| Schemas.Schemas.GetSchema | src/components/SchemaViewer/Schemas.js:24-41 | the walk returns what `Resolve` describes (the value, `undefined`, or the URIError) and modifies nothing |
| Schemas.SplitId | src/components/SchemaViewer/Schemas.js:25 | the document path and the fragment: appending `/<seg>` keeps the path and extends the fragment (`SplitPointerId`); `key`, `key#` and `key#/` all name the whole document (`ResolveWholeDocument`) |
| Schemas.Walk | src/components/SchemaViewer/Schemas.js:32-37 | the walk over the segments: one segment reads one member (`WalkOne`), walks compose (`WalkAppend`), and only truthy values are found (`WalkFindsTruthy`) |
| Schemas.Resolve | src/components/SchemaViewer/Schemas.js:24-41 | `getSchema(id)`, implemented by `Schemas.GetSchema`: an unknown document gives `undefined` (`ResolveUnknownDocument`), a bare key the whole document (`ResolveWholeDocument`), a child id the child (`ResolveDescend`), never a falsy value (`ResolveFindsTruthy`) |
| Schemas.WalkFindsTruthy | src/components/SchemaViewer/Schemas.js:32-37 | a walk that finds a value from a truthy start finds a truthy one |
| Schemas.ResolveFindsTruthy | src/components/SchemaViewer/Schemas.js:26-40 | `getSchema` never returns a falsy value: those read as `undefined` |
| Schemas.WalkAppend | src/components/SchemaViewer/Schemas.js:32-37 | walking a path and then more is walking the first part, then the rest from where it ended, stopping at the first `undefined` or exception |
| Schemas.ResolveUnknownDocument | src/components/SchemaViewer/Schemas.js:26-29 | an unregistered document path gives `undefined` whatever the fragment, and never throws |
| Schemas.ResolveWholeDocument | src/components/SchemaViewer/Schemas.js:25-40 | a registered `#`-free key, bare or with an empty or `/` fragment, gives the whole document |
| Schemas.SplitPointerId | src/components/SchemaViewer/Schemas.js:25 | appending `/<seg>` to a pointer id keeps its document path and extends its fragment |
| Schemas.WalkOne | src/components/SchemaViewer/Schemas.js:32-37 | walking one plain segment reads that member, or `undefined` when it is missing or falsy |
| Schemas.ResolveDescend | src/components/SchemaViewer/Schemas.js:25-37 | appending `/<seg>` to a pointer id resolves to member `seg` of what the id resolves to, or `undefined` when that member is missing or falsy |
| Schemas.RegisteredDocumentResolves | src/components/SchemaViewer/Schemas.js:14-40 | every document the registry keeps under a `#`-free key is found again by `<key>#` |
| SchemaViewer.ActiveRequired | src/components/SchemaViewer/index.js:102 | the set in force is the schema's own truthy `required` (an array's elements, a string's characters), else the inherited set, else empty; any other truthy `required` throws |
| SchemaViewer.Build | src/components/SchemaViewer/index.js:89-104 | `schemaTable`: an unresolved id gives `Unknown` (`UnknownReference`); the required set comes from `ActiveRequired`; enough fuel leaves no `OutOfFuel` when no `$ref` is reachable and member names are plain (no `/`, `~`, `%` or `#`) (`EnoughFuel`) |
| SchemaViewer.BuildResolved | src/components/SchemaViewer/index.js:106-151 | the dispatch: compositions first (`CompositionFirst`), then `$ref` (`ReferenceFollowed`), then `type` and the shape (`TypeDispatch`) |
| SchemaViewer.BuildCombination | src/components/SchemaViewer/index.js:71-87 | `combination`: a non-array keyword throws (`CombinatorMustBeArray`); it fails exactly when an alternative fails (`CombinationFails`); otherwise the sections of `CombinationSections` |
| SchemaViewer.BuildAlternatives | src/components/SchemaViewer/index.js:79-81 | `things.map`: succeeds exactly when every alternative does (`AlternativesSucceed`), one section per element in order (`AlternativesInOrder`) |
| SchemaViewer.AlternativeSection | src/components/SchemaViewer/index.js:80 | one alternative: `<base>/<i>`, named by its `title`, with no inherited set, resolving to alternative `i` (`AlternativeIdResolves`); a `null` alternative throws |
| SchemaViewer.BuildObject | src/components/SchemaViewer/index.js:25-69 | `objectTable`: with properties (`ObjectWithProperties`) or without (`ObjectWithoutProperties`) |
| SchemaViewer.BuildProperties | src/components/SchemaViewer/index.js:29-31 | the `Object.entries` map: succeeds exactly when every property does (`PropertiesSucceed`), one section per entry in order (`PropertiesInOrder`) |
| SchemaViewer.PropertySection | src/components/SchemaViewer/index.js:30 | one property: `<id>/properties/<name>`, named `name`, with the active set, resolving to that property (`PropertyIdResolves`) |
| SchemaViewer.BuildArray | src/components/SchemaViewer/index.js:117-134 | `renderArray`: one `Arr` section over `<id>/items`, and `items` absent or `null` throws (`ArraySection`) |
| SchemaViewer.Render | src/components/SchemaViewer/index.js:183 | the entry call: the whole document, named `null` (`RenderWholeDocument`, `RenderUnknownDocument`), rendered in full with enough fuel (`RenderComplete`) |
| SchemaViewer.UnknownReference | src/components/SchemaViewer/index.js:90-101 | an id that does not resolve gives an `Unknown` section carrying that id, and nothing below it |
| SchemaViewer.CompositionFirst | src/components/SchemaViewer/index.js:106-111 | the first truthy keyword among `anyOf`, `allOf`, `oneOf` decides the section, whatever `$ref` and `type` say |
| SchemaViewer.ReferenceFollowed | src/components/SchemaViewer/index.js:112-115 | without composition, a truthy `$ref` is followed verbatim as an id, named `Reference`, with no inherited required set |
| SchemaViewer.TypeDispatch | src/components/SchemaViewer/index.js:137-151 | `type` `object` or `array` wins over the shape; any other present `type` is a leaf; an absent `type` tries `properties`, then `items`, then a leaf |
| SchemaViewer.ArraySection | src/components/SchemaViewer/index.js:117-134 | an array is one `Arr` section holding the section of `<id>/items`, named `items.title`, with the active set; `items` absent or `null` throws |
| SchemaViewer.CombinatorMustBeArray | src/components/SchemaViewer/index.js:79 | a composition keyword holding anything but an array throws (`things.map`) |
| SchemaViewer.CombinationFails | src/components/SchemaViewer/index.js:71-87 | a composition over an array fails exactly when its list of alternatives fails |
| SchemaViewer.CombinationSections | src/components/SchemaViewer/index.js:71-87 | a built composition has the keyword's kind, the name, the row of `<id>/<keyword>`, and one section per alternative in order |
| SchemaViewer.AlternativesSucceed | src/components/SchemaViewer/index.js:79-81 | the alternatives are built exactly when every alternative's section is: one `null` alternative fails them all |
| SchemaViewer.AlternativesInOrder | src/components/SchemaViewer/index.js:79-81 | the built alternatives are one per element, in order, each from `<id>/<keyword>/<i>` named by its `title` |
| SchemaViewer.PropertiesSucceed | src/components/SchemaViewer/index.js:29-31 | the properties are built exactly when every property's section is |
| SchemaViewer.PropertiesInOrder | src/components/SchemaViewer/index.js:29-31 | the built properties are one per entry, in declaration order, each from `<id>/properties/<name>` with the active set |
| SchemaViewer.ObjectWithProperties | src/components/SchemaViewer/index.js:28-43 | one section per property in order, then exactly one informational section when `additionalProperties === true`; wrapped in an `Obj` section exactly when the name is truthy |
| SchemaViewer.ObjectWithoutProperties | src/components/SchemaViewer/index.js:44-68 | without properties: the `additionalProperties` section when that is truthy, an "anything" section otherwise; wrapped exactly when the name is truthy |
| SchemaViewer.ResolvedIgnoresRequired | src/components/SchemaViewer/index.js:106-115 | under a composition or a reference, the required set in force changes nothing |
| SchemaViewer.RequiredNotPassedThroughReferences | src/components/SchemaViewer/index.js:102-115 | the set a parent passes down never reaches the sections under a composition or a reference |
| SchemaViewer.DescendTo | src/components/SchemaViewer/index.js:30 | a child id `<id>/<seg>` is a pointer id that resolves to member `seg` of what `id` resolves to |
| SchemaViewer.PropertyIdResolves | src/components/SchemaViewer/index.js:30 | for a plain property name, `<id>/properties/<name>` resolves to exactly that property |
| SchemaViewer.NumeralIsPlain | src/components/SchemaViewer/index.js:80 | the numeral of an index needs no escaping in a pointer |
| SchemaViewer.AlternativeIdResolves | src/components/SchemaViewer/index.js:80 | `<id>/<keyword>/<i>` resolves to alternative `i` of the composition, or `undefined` when that is falsy |
| SchemaViewer.TameMember | src/components/SchemaViewer/index.js:29-30 | a member of a value with no reachable `$ref` and plain names has the same two properties |
| SchemaViewer.TameHasNoReference | src/components/SchemaViewer/index.js:112 | such a value never takes the `$ref` branch |
| SchemaViewer.EntryFound | src/components/SchemaViewer/index.js:29-30 | every key `Object.entries` gives can be looked up again (on an array, to exactly its element), and is a plain segment in such a value |
| SchemaViewer.ChildFits | src/components/SchemaViewer/index.js:30 | the child id of a member that exists resolves within the fuel left for it |
| SchemaViewer.EnoughFuel | src/components/SchemaViewer/index.js:89-152 | with no `$ref` reachable and plain member names, fuel equal to the nesting depth builds a tree with no `OutOfFuel` marker |
| SchemaViewer.HashNameNeverEnds | src/components/SchemaViewer/index.js:30 | on `{properties: {"a#x": {}, a: {properties: {b: {}}}}}`, which has no `$ref`, building from `doc#/properties/a#x` followed by any number of `/properties/b` succeeds but never completes, for every fuel: the `#` in the name cuts every child id back to property `a` |
| SchemaViewer.EnoughFuelResolved | src/components/SchemaViewer/index.js:106-151 | the same for the dispatch once the schema is known |
| SchemaViewer.EnoughFuelCombination | src/components/SchemaViewer/index.js:71-87 | the same for a composition |
| SchemaViewer.EnoughFuelAlternatives | src/components/SchemaViewer/index.js:79-81 | the same for every alternative |
| SchemaViewer.EnoughFuelObject | src/components/SchemaViewer/index.js:25-69 | the same for an object |
| SchemaViewer.EnoughFuelObjectProperties | src/components/SchemaViewer/index.js:28-43 | the same for an object with properties |
| SchemaViewer.EnoughFuelObjectAdditional | src/components/SchemaViewer/index.js:44-45 | the same for an object built from `additionalProperties` |
| SchemaViewer.EnoughFuelProperties | src/components/SchemaViewer/index.js:29-31 | the same for every property |
| SchemaViewer.EnoughFuelArray | src/components/SchemaViewer/index.js:117-134 | the same for an array |
| SchemaViewer.EntryId | src/components/SchemaViewer/index.js:183 | the entry id `<schemaId>#` names the whole document `schemaId` |
| SchemaViewer.RenderUnknownDocument | src/components/SchemaViewer/index.js:183 | the call at line 183 taken alone renders an unregistered document id as one `Unknown` section for `<schemaId>#`; in the program `render()` has already thrown at lines 170-173 |
| SchemaViewer.RenderWholeDocument | src/components/SchemaViewer/index.js:183 | a registered document renders from its whole self, named `null`, with only its own `required` in force |
| SchemaViewer.RenderComplete | src/components/SchemaViewer/index.js:183 | a registered document with no reachable `$ref` and plain names is rendered in full by fuel equal to its depth |

## Left out

- JSX, `NormalRow`, `Table`, `Container` and the styles are not modelled. A section is a
  `Node` that carries what the row would show: the name, the required set and the schema.
- The React `key` strings (index.js:104 and the `key` arguments) are display-only and are left out.
- `render()` outside the entry call at index.js:183 is left out: the prop checks, the
  `joiToJson` conversion and the preliminary `getSchema(schemaId)` with its `Error`.
  `Render` takes the registry and the document id as parameters.
- `src/components/SchemaViewer/Schema.js` is not part of this model. Nothing imports it,
  and it is an unparsable copy of the builder in index.js.
- JavaScript numbers are modelled as integers. Only their truthiness and `String()` matter here.
- JavaScript strings are modelled as sequences of Unicode scalar values, not UTF-16 code units.
- `encodeURIComponent` is not called by the source. It is modelled only as the partner that
  `decodeURIComponent` inverts; the URIError it throws on a lone surrogate cannot arise on
  scalar values.
- Property access on strings and numbers, prototype properties and an array's `length` are
  left out. Only objects (by member name) and arrays (by canonical decimal index) have members.
- `Json.Entries`: `Object.entries` of a truthy string `properties` yields its characters in
  the source but nothing in the model. Integer-like keys, which `Object.entries` moves first,
  keep their declaration order.
- Objects with two members of the same name are not given the source's meaning: lookup
  finds the first one, where `JSON.parse` keeps the last.
- `SchemaViewer.ActiveRequired`: `new Set` compares objects by identity; the model's set
  compares JSON values by structure.
- `Schemas.WithDefaultId`: the source assigns `$id` to the caller's own document object.
  The model builds a new document value, so the caller never sees that update. The `$id` the
  source adds to a lone array is invisible to JSON: the array is stored under `schema.json`
  as it was, so `schema.json#/$id` finds nothing in the model where the source finds
  `schema.json`.
- `SchemaViewer.Build`: the unbounded recursion, and the stack overflow on a `$ref` cycle,
  are replaced by the fuel bound. Running out of fuel yields an `OutOfFuel` section.
- `SchemaViewer.PropertyIdResolves`: the builder does not escape a property name in the
  child id, exactly as the source does. The round trip is proved only for names without
  `/`, `~`, `%` and `#`. For other names the model keeps the source's outcomes, unproved
  except for `#`:
  - `/` splits the name into two pointer segments, which name a nested member.
  - `~0` and `~1` unescape to `~` and `/`, naming a different member. A `~` followed by
    anything else is kept, so `a~b` names its own member.
  - A valid `%XY` decodes to another character, naming a different member. An invalid one,
    as in `50%`, makes `decodeURIComponent` throw: the build gives `Failure(BadUri(id))`.
  - `#` cuts the fragment short at the second `#`, so the child id names the part of the
    name before it. This can recurse forever with no `$ref` at all: on
    `{properties: {"a#x": {}, a: {properties: {b: {}}}}}` every level names `a` again
    (`SchemaViewer.HashNameNeverEnds`).
- Which kind of exception is thrown (`Error`, `TypeError`, `URIError`) is kept as distinct
  error constructors, but exception messages are not modelled.
