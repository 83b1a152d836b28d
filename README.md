# forwarded-http, modelled in Dafny

`forwarded-http` turns one inbound HTTP request into a record that says who
sent it: the chain of client addresses (`ips`), the ports seen (`ports`), the
final `port`, the protocol (`proto`), the `host`, the `by` interface and a
`for` table from address to port. It reads the connection, a fixed table of
vendor header conventions (X-Forwarded-*, Z-Forwarded-*, Fastly, nginx
X-Real-*, Rackspace, Cloudflare and four flag headers), and the RFC 7239
`Forwarded` header, then removes repeats and filters addresses.

The model has three parts, following the three source files:

- `rfc7239.dfy` (module `Rfc7239`): the `Forwarded` header parser.
  - `ParseHeader` is the imperative parser: nested loops over the elements (cut at `;`) and the parts (cut at `,`).
  - It is proved to compute the function `Parse`.
  - The lemmas characterise `Parse` by the occurrences of each name in the header. A name is present exactly when some part gives it a value, its values are those occurrences in order, and it is a scalar exactly when it is not `for` and occurs once.
  - Further lemmas cover lower-case names, quote removal and the empty-value rules.
  - The parser's unit tests are restated as lemmas.
  - `ParseAsWritten` is the same parser on a plain JavaScript object, where the names `__proto__` and `constructor` find inherited members (see "## Findings"). The rest of the model uses the corrected `Parse`.
- `schemas.dfy` (module `Schemas`): the ordered schema table as data, and the special-header protocol extractor as a function.
- `engine.dfy` (module `Engine`): the reconcile engine.
  - Its stages are specification functions on the record value: seed, schema fold, backfill, `Forwarded` overlay, removal of repeats, and filtering.
  - The methods update a local record step by step, as the source does.
  - Each method is proved to compute its stage.
- `engine_props.dfy` (module `EngineProperties`): what the engine promises, stated against independent reference lists.
  - These lists are the address pieces, the port values, and the host and protocol opinions of the table, in table order, plus the nodes of the `Forwarded` header.
  - The lemmas cover which value wins each field, what the `for` table holds, and what filtering may remove.
- `text.dfy`, `lists.dfy`, `http.dfy`, `wrappers.dfy`: the JavaScript built-ins the core relies on, and the header map.
  - The built-ins are `split` on a character and on the "separator with surrounding spaces" pattern, `toLowerCase`, quote removal, `indexOf`, `filter`, and the first-occurrence filter.

The libraries the engine calls are parameters (the `Libraries` record):

- `ip-port-regex` node splitting;
- `ip-filter` glob matching, strict and lenient;
- `ip.isPublic` and `ip.isPrivate`;
- the JSON reading of `cf-visitor`.

Where the code and its comments or tests point different ways, the model follows the code:

- The parser wraps a lone `for` value in a one-element list (lib/rfc7239.js:35-37), although its tests compare it with a plain string.
- The "append missing ips" pass (lib/index.js:100-107) selects the addresses that already have a `for` entry. It therefore overwrites every entry with the final port and adds none.
- After filtering, the `for` table may keep keys that `ips` dropped. The two lists use the filter in different modes (lib/index.js:153 and :164). `for=secret` stays in the table and not in `ips`.
- For `cf-visitor` the extractor returns the scheme it reads, whatever it is, not `https`.
- A `proto`, `host` or `by` repeated in `Forwarded` is collected into a list like any repeated name, and the engine copies that list into the record as it is (lib/index.js:127-137). The model keeps this scalar-or-list shape (`Rfc7239.Value`) for those fields and does not restrict them to one occurrence.

## Model

| member | source | states |
|---|---|---|
| Text.SplitShape | lib/rfc7239.js:9 | no piece of `split('=')` contains the separator, and every piece is made of characters of the input |
| Text.JoinSplit | lib/rfc7239.js:9 | joining the pieces of a split at the separator gives the input back: nothing is lost |
| Text.SplitJoin | lib/rfc7239.js:9 | splitting a join of separator-free pieces gives those pieces back |
| Text.SplitSpacedShape | lib/rfc7239.js:6-7 | the parts of a split at `;`/`,` with surrounding spaces hold no separator and only input characters; no part but the first starts with a space and no part but the last ends with one |
| Text.TrimPiecePadded | lib/rfc7239.js:6-7 | a piece trimmed after the spaced split is the piece less spaces, taken off only on the sides where a separator was |
| Text.SplitSpacedContents | lib/rfc7239.js:6-7 | each piece of the plain split is its spaced-split part with only spaces around it, none before the first part and none after the last: the text between separators survives |
| Text.SplitSpacedPair | lib/rfc7239.js:7 | `a, b` is cut into exactly `a` and `b`: the space after the comma goes with it |
| Text.ToLower | lib/rfc7239.js:11 | lower-casing keeps the length, turns each ASCII capital into its own small letter (32 code points on) and keeps every other character |
| Text.ToLowerIdempotent | lib/rfc7239.js:11 | lower-casing twice is lower-casing once |
| Text.LowerCharAlike | lib/rfc7239.js:11 | two characters lower-case alike iff they are equal or an ASCII capital and its own small letter |
| Text.ToLowerAlike | lib/rfc7239.js:11 | two names lower-case alike iff they agree character by character up to ASCII case, so `For`, `FOR` and `for` are one key |
| Text.StripQuotes | lib/rfc7239.js:15 | no `"` remains, the characters left are the input's other characters, and the result is no longer than the input; with `StripQuotesConcat` and `StripQuotesUnquoted` this fixes the result exactly |
| Text.StripQuotesUnquoted | lib/rfc7239.js:15 | a value without quotes is unchanged |
| Text.StripQuotesWrapped | lib/rfc7239.js:15 | a value wrapped in quotes loses exactly the wrapping |
| Text.StripQuotesConcat | lib/rfc7239.js:15 | quotes are removed piece by piece: the result for a concatenation is the concatenation of the results, so the other characters keep their order and number |
| Text.StripQuotesInterior | lib/rfc7239.js:15 | a quote inside a value goes and the text on both sides stays: `a"b` becomes `ab` |
| Lists.IndexOf | lib/index.js:141-143 | `indexOf` gives the position of the first occurrence |
| Lists.IndexOfUnique | lib/index.js:141-143 | a position holding a value with no earlier occurrence is that value's `indexOf` |
| Lists.Dedup | lib/index.js:141-146 | the first-occurrence filter leaves no repeats and keeps every value |
| Lists.DedupOrder | lib/index.js:141-146 | the survivors are ordered by their first occurrence in the input |
| Lists.DedupKeepsFirst | lib/index.js:141-146 | the first value stays first |
| Lists.DedupDistinct | lib/index.js:141-146 | a list without repeats is unchanged |
| Lists.DedupIdempotent | lib/index.js:141-146 | removing repeats twice is removing them once |
| Lists.Filter | lib/index.js:148-160 | `filter` keeps exactly the elements that pass, and never lengthens the list; `FilterConcat` and `FilterSingle` fix order and multiplicity |
| Lists.FilterOrder | lib/index.js:148-160 | filtering a list without repeats keeps it without repeats and in its order |
| Lists.FilterKeepsFirst | lib/index.js:148-160 | a passing first element of a repeat-free list stays first |
| Lists.FilterSingle | lib/index.js:148-160 | one element is kept iff it passes |
| Lists.FilterConcat | lib/index.js:148-160 | filtering a concatenation is concatenating the filtered pieces: the passing elements keep their order and their number of occurrences, repeats included |
| Lists.FilterAll | lib/index.js:148-160 | a list whose every element passes is unchanged |
| Rfc7239.RecordPart | lib/rfc7239.js:9-31 | the per-part callback records the part exactly as the specification function `AddPart` says |
| Rfc7239.RecordParts | lib/rfc7239.js:7-32 | the inner loop extends the collected directives by the element's parts, in order |
| Rfc7239.ParseHeader | lib/rfc7239.js:3-40 | the parser's loops compute `Parse`: every part of every element recorded in order, then a lone `for` wrapped in a list |
| Rfc7239.CollectStep | lib/rfc7239.js:6-33 | one more part changes the directives by that part alone |
| Rfc7239.AddPartOccurrences | lib/rfc7239.js:14-30 | one part extends the values recorded under its lower-cased name by its value when it has one, and leaves every other name as it was |
| Rfc7239.CollectOccurrences | lib/rfc7239.js:17-30 | a name is present iff it occurs; its values are its occurrences in order; it is a scalar iff it occurs once |
| Rfc7239.RewrapOccurrences | lib/rfc7239.js:35-37 | the final step keeps every name and its values, and turns only a lone `for` from a single value into a list |
| Rfc7239.ParseOccurrences | lib/rfc7239.js:14-37 | in the parse result a name is present iff some part gives it a value; its values are those values in order; it is a scalar iff it is not `for` and occurs once |
| Rfc7239.ParseForIsList | lib/rfc7239.js:35-37 | `for`, when present, is always a list |
| Rfc7239.CollectNamesLowerCase | lib/rfc7239.js:11 | every recorded name is lower-case |
| Rfc7239.ParseNamesLowerCase | lib/rfc7239.js:11 | every name in the parse result is lower-case, so `For` and `for` share a key |
| Rfc7239.ParseValuesUnquoted | lib/rfc7239.js:15 | no value in the parse result contains a double quote |
| Rfc7239.ParseWithoutEquals | lib/rfc7239.js:9-14 | a header without `=` parses to the empty object |
| Rfc7239.ParseInvalid | test/rfc7239.js:44-50 | `INVALID` parses to the empty object |
| Rfc7239.PartValueSecondEquals | lib/rfc7239.js:9-14 | a part's value is only the text between the first and second `=`; an empty one gives nothing |
| Rfc7239.PartValueSingleEquals | lib/rfc7239.js:9-15 | `name=value` names the lower-cased `name` and gives the unquoted value, or nothing for an empty value |
| Rfc7239.EmptyQuotedValue | lib/rfc7239.js:14-15 | `for=""` records the empty string, because emptiness is judged before the quotes go |
| Rfc7239.PartWithoutValue | lib/rfc7239.js:9-14 | `name=` and a bare `name` contribute nothing |
| Rfc7239.ParseSinglePair | lib/rfc7239.js:3-40 | a one-pair header maps the lower-cased name to the unquoted value, and a `for` value to a one-element list |
| Rfc7239.ParseQuotedFor | lib/rfc7239.js:11-15 | a quoted `for` pair in any letter case, name and node free of `;`, `,`, space, `=` and `"`, gives a one-element `for` list holding the unquoted node |
| Rfc7239.ParseTwoNodes | lib/rfc7239.js:6-30 | two `for` pairs separated by `, ` or `,` give a two-element `for` list in header order |
| Rfc7239.ParseThreeNames | lib/rfc7239.js:6-37 | three `;`-separated pairs under distinct names give a one-element `for` list and two scalars |
| Rfc7239.ParseObfuscatedIdentifier | test/rfc7239.js:10-16 | `for="_gazonk"` gives `for` = [`_gazonk`] |
| Rfc7239.ParseQuotedIpv6 | test/rfc7239.js:18-24 | `For="[2001:db8:cafe::17]:4711"` gives `for` = [`[2001:db8:cafe::17]:4711`] |
| Rfc7239.ParseThreeElements | test/rfc7239.js:26-34 | `for=192.0.2.60;proto=http;by=203.0.113.43` gives the list `for` and the scalars `proto` and `by` |
| Rfc7239.ParseRepeatedFor | test/rfc7239.js:36-42 | `for=192.0.2.43, for=198.51.100.17` gives both nodes in order |
| Rfc7239.ParseCaseInsensitiveNames | test/index.js:375-386 | `for=0.0.7.1,For=0.0.7.2` collects both nodes under `for` |
| Rfc7239.CollectAsWritten | lib/rfc7239.js:6-33 | on a plain object the collection raises iff some part gives a value to `__proto__`; otherwise it is the corrected collection of the parts not named `constructor`, and neither name is ever a key |
| Rfc7239.ParseAsWritten | lib/rfc7239.js:3-40 | the parser on a plain object raises iff some part gives a value to `__proto__`, and otherwise equals the corrected parser on the parts not named `constructor` |
| Rfc7239.ParseAsWrittenAgrees | lib/rfc7239.js:3-40 | without parts named `__proto__` or `constructor`, the parser on a plain object and the corrected parser agree |
| Rfc7239.SinglePairAsWritten | lib/rfc7239.js:9-30 | one plain pair on a plain object: `__proto__` raises, `constructor` is dropped, any other name parses as the corrected parser does |
| Rfc7239.PlainPairParse | lib/rfc7239.js:9-19 | one plain pair under a name other than `for` records its value as a scalar under the lower-cased name |
| Rfc7239.ProtoNameThrows | lib/rfc7239.js:17-28 | `__proto__=x` raises on a plain object, while the corrected parser records `__proto__` as `x` |
| Rfc7239.ConstructorNameDropped | lib/rfc7239.js:17-30 | `constructor=x` is dropped on a plain object, while the corrected parser records `constructor` as `x` |
| Schemas.SpecialProto | lib/schemas.js:62-87 | the extractor only ever proposes a non-empty protocol |
| Schemas.ProtoOpinion | lib/index.js:52-69 | an entry proposes only truthy protocols, and none without a protocol source |
| Schemas.HeaderOpinion | lib/index.js:72-75 | (the same test guards the host and address reads at lines 45 and 85) an entry's header is read iff the entry names it and the request carries it non-empty, and then it is that value |
| Schemas.TableLayout | lib/schemas.js:5-89 | ten entries; addresses in entries 1, 3, 5, 6, 8, 9, hosts in 1, 3, ports in 1, 3, 5, 6, protocols in 1, 2, 3, 4, 6, 7, 10; only the last computes its protocol |
| Schemas.TableAddressHeaders | lib/schemas.js:7-58 | the address headers in table order: x-forwarded-for, z-forwarded-for, fastly-client-ip, x-real-ip, x-cluster-client-ip, cf-connecting-ip |
| Schemas.FlagsGiveHttps | lib/schemas.js:63-74 | `front-end-https: on`, `x-forwarded-ssl: on` or `fastly-ssl` `1`/`true` give `https`, whatever `cf-visitor` says |
| Schemas.VisitorSchemeVerdict | lib/schemas.js:77-86 | without a flag, there is an opinion iff `cf-visitor` is present and yields a non-empty scheme, and the opinion is that scheme |
| Schemas.SpecialProtoRange | lib/schemas.js:62-87 | the extractor answers `https` or the `cf-visitor` scheme and nothing else |
| Schemas.BadVisitorNoOpinion | lib/schemas.js:78-86 | an unreadable or scheme-less `cf-visitor` gives no opinion and raises nothing |
| Engine.WithDefaults | lib/index.js:13-16 | the filter defaults to `*` and `allowPrivate` to true; a given option replaces its default; no options give `Settings(Pattern("*"), true)` |
| Engine.Seed | lib/index.js:22-35 | the record starts with the peer alone: its address is the only listed address and the only `for` key, mapped to its port, which is also the only port; the protocol is `https` iff the socket is encrypted; the host is the `host` header when present; no `by` |
| Engine.ApplySchemaEntry | lib/index.js:43-98 | one entry applied in place: host, protocol, port, then addresses, exactly as `ApplySchema` |
| Engine.AppendAddresses | lib/index.js:85-97 | the pieces are appended to `ips` and each is mapped to the current port, one by one |
| Engine.ApplySchemaTable | lib/index.js:43-98 | the loop over the table computes the fold `ApplySchemas` over the ten entries in order |
| Engine.BackfillPorts | lib/index.js:100-107 | the addresses already in the `for` table are collected, then each is given the final port |
| Engine.ApplyForwardedHeader | lib/index.js:110-138 | the parsed header applied: each `for` node in order, then truthy `proto`, `host` and `by` |
| Engine.ApplyForNodes | lib/index.js:112-125 | the `forEach` over the `for` nodes computes `ApplyNodes`: each node's address and port appended and the address mapped to the port, in order |
| Engine.KeepFirstOccurrences | lib/index.js:140-146 | the filter with callback `indexOf(value) === index` computes `Dedup` |
| Engine.FilterAddresses | lib/index.js:148-160 | an address stays iff the strict filter matches (a raise counts as `null`) and private addresses are allowed or it is public |
| Engine.PruneForTable | lib/index.js:162-170 | in any key order, the result is a failure iff the lenient filter raises on some key; otherwise exactly the keys that match and are not disallowed private addresses remain, with their values |
| Engine.ReconcileRequest | lib/index.js:12-173 | the exported function, step by step, computes `Reconcile` |
| EngineProperties.SchemaStepLists | lib/index.js:71-97 | one entry appends its address pieces to `ips` and its port value, when present, to `ports` |
| EngineProperties.SchemaStepFields | lib/index.js:44-82 | one entry overwrites `port` and `host` with its header values and `proto` with a truthy opinion, keeps them otherwise, and leaves `by` |
| EngineProperties.SchemaFoldAddresses | lib/index.js:84-97 | after the table, `ips` is the seed's followed by every present address piece, in table order |
| EngineProperties.SchemaFoldPorts | lib/index.js:71-82 | after the table, `ports` is the seed's followed by every present port value, in table order |
| EngineProperties.SchemaFoldPort | lib/index.js:71-82 | after the table, `port` is the last port value found, or the seed's when none was |
| EngineProperties.SchemaFoldHost | lib/index.js:44-49 | after the table, `host` is the last host header value found, or unchanged when none was |
| EngineProperties.SchemaFoldProto | lib/index.js:51-69 | after the table, `proto` is the last truthy protocol opinion, or unchanged when none was; `by` is untouched |
| EngineProperties.AddressesTakeCurrentPort | lib/index.js:85-97 | each address of an entry maps to the port current after that entry; other entries keep their ports |
| EngineProperties.SchemaKeepsKeys | lib/index.js:85-97 | an entry keeps the `for` keys equal to the listed addresses |
| EngineProperties.SchemaFoldKeepsKeys | lib/index.js:43-98 | the fold keeps the `for` keys equal to the listed addresses |
| EngineProperties.SpecialProtoOverrides | lib/schemas.js:61-88 | any opinion of the special-header extractor becomes the protocol after the table, whatever the named protocol headers say, because its entry comes last |
| EngineProperties.FlagsOverride | lib/schemas.js:63-74 | a flag header makes the protocol `https` after the table |
| EngineProperties.VisitorSchemeOverrides | test/index.js:343-351 | without a flag, a non-empty `cf-visitor` scheme becomes the protocol after the table, over `x-forwarded-proto` and the other named headers |
| EngineProperties.BackfillFinalPort | lib/index.js:100-107 | after backfill every listed address maps to the final port, and no other key exists |
| EngineProperties.BackfilledTable | lib/index.js:23-107 | after the table and the backfill, the `for` table maps exactly the listed addresses, all to the final port |
| EngineProperties.NodesAppended | lib/index.js:113-124 | the nodes append their addresses (the node itself when none is found) and ports (the current port when none is found) in order; the scalar fields stay |
| EngineProperties.NodesLastWins | lib/index.js:113-124 | a node's address maps to the port of the last node with that address; the node addresses become keys; other entries keep their ports |
| EngineProperties.DirectivesLists | lib/index.js:112-125 | the `for` nodes append their addresses and ports (the current `port` when a node has none) and `port` itself stays |
| EngineProperties.DirectivesScalars | lib/index.js:127-137 | a truthy `proto`, `host` or `by` directive overwrites that field; otherwise the field is kept |
| EngineProperties.DirectivesKeepKeys | lib/index.js:112-125 | applying the directives keeps the `for` keys equal to the listed addresses |
| EngineProperties.OverlayFields | lib/index.js:110-138 | the overlay appends node addresses and ports, keeps `port`, and lets truthy `proto`, `host` and `by` overwrite |
| EngineProperties.OverlayKeepsKeys | lib/index.js:110-125 | the overlay keeps the `for` keys equal to the listed addresses |
| EngineProperties.MergedFields | lib/index.js:23-146 | before filtering, the lists are the peer's, the table's and the nodes' values without repeats; `port` comes from the table; `Forwarded` beats the table for `proto`, `host` and `by`; the `for` keys are exactly the addresses |
| EngineProperties.RejectsNonRequest | lib/index.js:18-20 | a request that is not an `IncomingMessage` gives the type error and no record |
| EngineProperties.EmptyHeadersGiveSeed | lib/index.js:22-40 | without headers the record is the peer alone, unfiltered whatever the options |
| EngineProperties.ReconcileFails | lib/index.js:162-170 | after the type check, the engine fails iff the lenient filter raises on a listed address |
| EngineProperties.MergedKeys | lib/index.js:23-138 | before filtering, an address is a key of the `for` table iff it is one of the listed addresses |
| EngineProperties.ThrowsOnKeys | lib/index.js:162-170 | with keys equal to the listed addresses, the lenient filter raises on some key iff it raises on some listed address |
| EngineProperties.ReconcileFiltered | lib/index.js:140-170 | filtering only removes; `ips` keeps the passing addresses and `ports` every port, both without repeats and in first-occurrence order; the `for` table keeps the passing addresses with their merged ports |
| EngineProperties.ReconcilePeerFirst | lib/index.js:23-26 | the peer's port leads `ports`, and the peer's address leads `ips` unless it is filtered out |

## Left out

- `lib/middleware.js`, the framework adapter that calls the engine and attaches the result to the request, is not part of this model.
- The `debug` logging calls are diagnostics only.
- The code of the foreign libraries is not modelled. They are the `Libraries` parameters: `ip-port-regex` node splitting, `ip-filter` matching, `ip.isPublic` and `ip.isPrivate`, and `JSON.parse` of `cf-visitor`.
- A `cf-visitor` scheme that is not a string (a number or an object) is not modelled. The scheme is read as an optional string.
- The `instanceof http.IncomingMessage` test and the missing-request test are one flag on the request.
- An option given explicitly as `undefined` is not modelled. It would replace the default: a `filter` of `undefined` reaches the filter library. `allowPrivate` is modelled as "exactly `true`", so any other value counts as `false`.
- Node delivers `remotePort` as a number, but the model takes it as a string, as the tests do. Strict `indexOf` would keep a numeric peer port apart from an equal header string.
- The header map is always present, with lower-case keys. A missing `req.headers` would raise at lib/index.js:38.
- Object prototype keys are modelled for the parser only, by `Rfc7239.ParseAsWritten`. The engine uses the corrected `Rfc7239.Parse`, which treats every name as an ordinary key. So the model does not capture that `Forwarded: __proto__=x` raises a `TypeError` out of the engine at lib/index.js:111 (see "## Findings"), nor that `constructor` is dropped. In the `for` table, an address `__proto__` is not modelled either: assigning a string to it is ignored, so that address gets no entry.
- `toLowerCase` is modelled on ASCII letters only.
- The order of `Object.keys` is left unspecified: the pruning loop picks keys in any order. The result is the same for every order.
- Engine.ApplyForwardedHeader: iterates over the values of `for` through `Values`. The parser always makes `for` a list (`Rfc7239.ParseForIsList`), so this matches `forEach`.

## Findings

| source | as written | input that shows it | evidently intended | confidence | as-written member | corrected member |
|---|---|---|---|---|---|---|
| lib/rfc7239.js:17-28 | `typeof forwarded[name]` on a plain object finds the inherited `Object.prototype` under `__proto__`, takes the `'object'` case and calls a `push` it does not have | `Forwarded: __proto__=x` raises a `TypeError`, which escapes the engine at lib/index.js:111 and fails the request | every name is recorded like any other, and the parser never raises | not executed | Rfc7239.ProtoNameThrows | Rfc7239.ParseOccurrences |
