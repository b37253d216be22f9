# Hoppscotch to Postman converter — a Dafny model

This project models the conversion engine of a small TypeScript tool that
turns Hoppscotch exports (collections of folders and requests, and
environments) into Postman v2.1.0 collections and Postman environments,
together with the decision logic of its command-line driver.

- `Placeholders` — `replacePlaceholders`: the global, lazy regular
  expression `/<<(.*?)>>/g` rewriting `<<name>>` to `{{name}}`, as a left to
  right scan (`FindClose` is the lazy `(.*?)>>` step).
- `Segments` — JavaScript `split`/`join` on one character, used for the URL.
- `Types` — the source and target shapes of `src/types.ts`. A Postman item is
  a sum type, `Container | Leaf`; auth and body are sum types whose `Type()`
  and `Mode()` give the tag strings written to the document.
- `Converter` — `convertAuth`, `convertHeaders`, `convertBody`,
  `convertRequest` (with the URL decomposition) as functions;
  `convertFolder`, the collection builder of `processCollectionConversion` and
  the environment builder as methods with the source's `for` loops, each
  proved equal to a specification function (`FolderItem`, `CollectionOf`,
  `EnvironmentOf`) about which the lemmas are stated.
- `Index` — the input-file filter, the classification of a parsed JSON
  document (the `isCollectionArray` loop with its `break`, then the if-chain),
  `safeName`, and the `forEach` that converts each collection of an array
  under its own suffix.

The model follows the code on these points:

- The classifier tests the TRUTHINESS of `folders`/`requests`, not their
  presence: `{folders: null}` or `{requests: ""}` is not a collection.
- JavaScript's `.` excludes all four line terminators (`\n`, `\r`, U+2028,
  U+2029), not only `\n`; a capture containing any of them is not rewritten.
- Output files are named `<base>[_<suffix>]_postman_collection.json` and
  `<base>_postman_environment.json`.

## Model

| member | source | states |
|---|---|---|
| `Placeholders.FindClose` | src/converter.ts:21 | the lazy `(.*?)>>` step returns the FIRST `>>` reachable without crossing a line terminator, and None exactly when no such `>>` exists |
| `Placeholders.ReplacePlaceholders` | src/converter.ts:19-24 | the translation keeps the length and changes only delimiters: each output character equals the input one, or is `{` for `<`, or `}` for `>` |
| `Placeholders.NoOpenerUnchanged` | src/converter.ts:21 | a string with no `<<` (including text already in `{{x}}` form) is returned unchanged |
| `Placeholders.TranslatePlaceholder` | src/converter.ts:21 | a leading `<<x>>` whose capture x is read in full becomes `{{x}}` and scanning resumes right after the match |
| `Placeholders.PlainPrefix` | src/converter.ts:21 | text with no `<` outside a match is copied untouched |
| `Placeholders.EmptyPlaceholder` | src/converter.ts:21 | `<<>>` becomes `{{}}` |
| `Placeholders.NewlineBlocksMatch` | src/converter.ts:21 | a candidate spanning a newline (`<<a\nb>>`) is not rewritten |
| `Segments.Split` | src/converter.ts:93-94 | `split('/')` always yields at least one piece and no piece contains `/` |
| `Segments.JoinSplit` | src/converter.ts:91-95 | joining the pieces of a split with the separator gives the original string back |
| `Segments.SplitJoin` | src/converter.ts:93-94 | splitting a join of separator-free parts gives the parts back (the other direction of the round trip) |
| `Segments.SplitNoSeparator` | src/converter.ts:93 | a string without `/` splits into itself alone |
| `Converter.ConvertAuth` | src/converter.ts:26-48 | total: `bearer` iff the kind is `bearer`, `inherit` iff `inherit`, `noauth` for `none` and every other kind; a bearer auth holds exactly one string-typed `token` entry whose value is the translated token, `""` when absent |
| `Converter.BearerVariableToken` | src/converter.ts:29-39 | a bearer token `<<x>>` converts to the single entry `{key: "token", value: "{{x}}", type: "string"}` |
| `Converter.BearerApiKeyExample` | src/converter.ts:29-39 | `{authType: "bearer", token: "<<api_key>>"}` gives the bearer token `{{api_key}}` |
| `Converter.ActiveHeaders` | src/converter.ts:52 | the filter keeps every active header and only active headers |
| `Converter.ActiveHeadersAppend` | src/converter.ts:51-52 | the filter distributes over concatenation, so kept headers keep their relative order |
| `Converter.ConvertHeader` | src/converter.ts:53-57 | the mapped entry is typed `text`; key and value change only in their delimiters, and a key or value with no `<<` is kept as it is |
| `Converter.ConvertHeaders` | src/converter.ts:50-58 | as many outputs as active headers, never more than the input; output k is the converted k-th active header, so order is kept; every output comes from an active input header and every active header's conversion is among the outputs |
| `Converter.ConvertHeadersAppend` | src/converter.ts:50-58 | converting a concatenation of header lists gives the conversions of the parts, in the same order |
| `Converter.ConvertBody` | src/converter.ts:60-82 | null iff the body is absent; `formdata` iff multipart content with an array payload, then same length and each field translated and typed `text`; a string payload gives `raw` of its translation under any content type; any other payload gives `raw` `""` |
| `Converter.RawBodyVerbatim` | src/converter.ts:74-79 | a string payload with no `<<` reaches the `raw` body unchanged |
| `Converter.RequestUrl` | src/converter.ts:91-95 | `raw` is the translated endpoint, `host` has exactly one element, and `host ++ path` joined with `/` is `raw` (and is exactly `raw`'s split) |
| `Converter.UrlWithScheme` | src/converter.ts:93-94 | for an endpoint `scheme//hostName` such as `http://api.com`, host is `[scheme]` and path is `["", hostName]`: the first segment is taken as host, as written |
| `Converter.UrlWithoutSlash` | src/converter.ts:93-94 | an endpoint without `/` is all host and an empty path |
| `Converter.ConvertRequest` | src/converter.ts:84-100 | a leaf named after the request with its method; its header list is `ConvertHeaders` of the headers (none when absent), its body `ConvertBody` of the body, its auth `ConvertAuth` of the auth; the description is copied when present and `""` when absent; the URL invariants above |
| `Converter.FolderItem` | src/converter.ts:102-121 | a container named after the folder with one item per sub-folder and per request |
| `Converter.AbsentListsAsEmpty` | src/converter.ts:108-118 | an absent sub-folder list converts like an empty one whatever the requests are, and an absent request list like an empty one whatever the sub-folders are; with both absent the container is empty |
| `Converter.FolderItemShape` | src/converter.ts:102-121 | the tree keeps its shape: leaves in the output equal requests at every depth of the source, containers equal folders |
| `Converter.FolderItemsShape` | src/converter.ts:108-112 | the same count equalities for a list of sub-folders |
| `Converter.ConvertFolder` | src/converter.ts:102-121 | the loop-based conversion (sub-folders pushed first, then requests) equals `FolderItem` |
| `Converter.CollectionFileName` | src/converter.ts:163-167 | read back from the name: it starts with the base, `_` and the suffix follow the base when the suffix is non-empty, and it ends with `_postman_collection.json`; its length is the sum of those parts |
| `Converter.EnvironmentFileName` | src/converter.ts:201 | read back from the name: the base, and right after it `_postman_environment.json`, nothing more |
| `Converter.CollectionOf` | src/converter.ts:131-159 | info has the collection's name, empty id and description and the v2.1.0 schema URI; items are the top-level folders' containers followed by the top-level requests' leaves; auth is `{}` iff absent, else the converted auth |
| `Converter.CollectionShape` | src/converter.ts:145-155 | the item list has one item per top-level folder and request, and its leaf and container totals equal the source tree's request and folder counts |
| `Converter.ProcessCollectionConversion` | src/converter.ts:130-167 | the envelope built with two push loops equals `CollectionOf`, and the output name is `CollectionFileName` |
| `Converter.EmptyCollectionExample` | test/test_converter.ts:22-51 | `Sample Collection` with no folders or requests and auth `none` gives its name, zero items and `noauth` |
| `Converter.RootRequestExample` | test/test_converter.ts:63-88 | one root request with a JSON string body gives one leaf `Root Request` whose body mode is `raw` and whose raw text is that string unchanged |
| `Converter.EnvironmentOf` | src/converter.ts:181-198 | id and name copied; one value per variable, each enabled and typed `text`; fixed scope, empty export time and fixed exporter tag |
| `Converter.EnvironmentRoundTrip` | src/converter.ts:190-198 | reading key, value and secret back from the values gives the original variables in order: nothing is lost or reordered |
| `Converter.ConvertEnvironment` | src/converter.ts:181-201 | the loop that pushes one value per variable equals `EnvironmentOf`, and the output name is `EnvironmentFileName` |
| `Converter.TestEnvironmentExample` | test/test_converter.ts:17-35 | the `Test Environment` document keeps its name and its one value is enabled |
| `Index.PlainJsonAccepted` | src/index.ts:20-21 | the input filter takes a `.json` file whose stem has no `_`, such as an ordinary export |
| `Index.OutputsNotReprocessed` | src/index.ts:20-21 | every collection or environment file name the converter writes is refused by the input filter |
| `Index.Classify` | src/index.ts:30-56 | only arrays are collection arrays, and an array is one iff every element has a truthy `folders` or `requests`; a non-array is an environment iff it has a `variables` array; otherwise it is a single collection iff `folders` or `requests` is truthy; environments and single collections are objects |
| `Index.ClassifyDocument` | src/index.ts:30-56 | the flag loop with `break` and the if-chain compute exactly `Classify` |
| `Index.MixedArrayRejected` | src/index.ts:31-37 | one element without truthy `folders`/`requests` rejects the whole array |
| `Index.EmptyArrayIsCollectionArray` | src/index.ts:30-39 | the empty array is an array of collections |
| `Index.EnvironmentBeforeCollection` | src/index.ts:50-53 | an object with a `variables` array is an environment even if it also has folders |
| `Index.NonArrayVariablesFallThrough` | src/index.ts:50-56 | a non-array `variables` falls through to the collection test |
| `Index.ArrayExamples` | src/index.ts:30-47 | `[{folders:[]},{requests:[]}]` is a collection array; `[{folders:[]},{foo:1}]` is unrecognized |
| `Index.SafeName` | src/index.ts:42 | the result has the name's JavaScript length (UTF-16 units) and only characters in `[a-z0-9_]` |
| `Index.SafeNameChar` | src/index.ts:42 | one character: an ASCII alphanumeric becomes its lower-case form, an astral character `__`, any other `_` |
| `Index.SafeNameAppend` | src/index.ts:42 | the safe name of a concatenation is the concatenation of the safe names, so the per-character rule applies to every name, astral characters included |
| `Index.SafeNameByChar` | src/index.ts:42 | on names without astral characters, each ASCII alphanumeric is kept lowercased and every other character becomes `_` |
| `Index.Decimal` | src/index.ts:44 | the rendering of the index is non-empty and all digits |
| `Index.DecimalRoundTrip` | src/index.ts:44 | parsing the rendering gives the index back |
| `Index.ArraySuffixReadBack` | src/index.ts:44 | the suffix holds only `[a-z0-9_]`, starts with the safe name, and its trailing digits parse back to the index |
| `Index.CollectionFileNameInjective` | src/converter.ts:163-167 | two non-empty suffixes giving the same collection file name are equal |
| `Index.ArrayFileNamesDistinct` | src/index.ts:41-44 | two collections of one array at different indices get different output file names, whatever their names |
| `Index.ConvertCollectionArray` | src/index.ts:41-45 | element i is converted by `CollectionOf` and written as `<base>_<safeName>_<i>_postman_collection.json` |

## Left out

- File system and console: listing the input directory, creating the output
  directory, reading and writing files, `JSON.stringify`, and all logging.
  The base name that `path.basename(file, '.json')` yields is a parameter.
- `JSON.parse` and the implicit cast of the parsed value to the typed shapes:
  the classifier works on a parsed `Json` value, the converters on typed
  values.
- Exceptions caught by the driver's `try`: a top-level `null` document, a
  `null` element of an array (both make property access throw) are reported
  as `Unrecognized`, since nothing is converted; a collection of an array
  whose `name` is not a string (which would throw in `safeName` and stop the
  remaining conversions) cannot occur, since names are strings here.
- Fields whose JavaScript type differs from the declared one: a non-string
  header key or value, token or endpoint (which `replacePlaceholders` returns
  as is), a non-array truthy `headers`, a falsy non-object `body` (which also
  yields a null body), a non-boolean `active` (tested for truthiness).
- Lone UTF-16 surrogates: strings are sequences of Unicode scalar values.
  Only `SafeName` counts length in UTF-16 units, where it makes a difference.
- The envelope fields that are always empty (`event`, `variable`,
  `protocolProfileBehavior`) are not represented.
