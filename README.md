# Domain-model reconciliation of the Haley JavaScript API

This project models `HaleyAPI.prototype.validateDomainModels` from the Haley
client facade. That routine compares the domain models loaded locally (the
dynamic-domain registry) with the list that the server reports. It then hands
its callback either `null` (success) or one descriptive error string. Every
other method of the facade is a one-line delegation to an implementation
object, and none of them is modelled.

The routine works in these steps:

1. A failed listing is reported behind the fixed prefix "Error when listing server domain models: ".
2. The server descriptors are indexed by URI.
3. A graph object is built for each registry entry. It goes both into a dictionary by URI and into an in-order list.
4. In strict mode (`failIfListElementsDifferent`), the local keys are stripped of the server keys with `indexOf`/`splice`. Any local-only URIs are reported. Then the server keys are stripped of the local keys, and any server-only URIs are reported.
5. The local list is walked. Each entry is compared with its server counterpart: the hash first, then the version.
6. The result is a count-prefixed list of mismatches, or success.

## Layout

- `wrappers.dfy`: `Option`. It stands for a value that may be JavaScript `null`/`undefined`, and for the callback's argument (None is `callback(null)`).
- `js_text.dfy`: the JavaScript string behaviour the report depends on. This covers `Array.prototype.join`, the decimal text of an array length, and the text of an absent value.
- `domain_models.dfy`: the descriptor records and `UriIndex`. `UriIndex` is a JavaScript object used as a dictionary: its entries, plus its keys in the order `Object.keys` reports them. The module also holds the ordered set difference `Without`, the per-descriptor comparison, and the pure specification `Validate`. It has the lemmas about the index, the difference and the entry list; the lemmas about `Validate` itself are in `properties.dfy`.
- `validator.dfy`: the routine as the step-by-step procedure the source is. It has the dictionary-filling loops, `indexOf`, the `splice` loop, the comparison loop, and `ValidateDomainModels`. That method is proved to return `Validate` of its inputs.
- `properties.dfy`: what the routine promises, proved about `Validate`.

The inputs are `strict`, the listing outcome and the registry:

- The listing outcome is an optional error message plus the descriptor list.
- The registry is a sequence of `LocalDomain` records, one per `VitalServiceJson.SINGLETON.dynamicDomains` entry.

Because `Validate` is a function, two calls with the same inputs give the same result.

The model follows the code exactly on these points:

- **Hash check.** A hash mismatch needs only a non-null *local* hash that differs from the server's. A null server hash counts as a mismatch, and the version is then not checked. The version check follows the same rule.
- **Listing error.** The error is tested for JavaScript truthiness, so an empty message counts as no error.
- **Local-only wording.** The local-only report reads "The following domains are loaded only locally: " followed by the URIs joined by ", ".
- **Duplicate local URIs.** The comparison walks the raw local list, so duplicate local URIs yield duplicate entries.
- **Duplicate keys.** A dictionary keeps each key in first-insertion order and holds the descriptor written last under it.

## Model

| member | source | states |
|---|---|---|
| Validator.ValidateDomainModels | lib-vital/haley-js-api/haley-js-api-0.0.1.js:261-378 | the method returns exactly what the specification Validate gives for the same strict flag, listing outcome and registry |
| Validator.IndexModels | lib-vital/haley-js-api/haley-js-api-0.0.1.js:279-282 | the loop leaves the server dictionary and its key order equal to indexing the listing by URI |
| Validator.LoadLocalDomains | lib-vital/haley-js-api/haley-js-api-0.0.1.js:284-294 | the loop yields the graph-object list in registry order and the local dictionary with its key order, equal to indexing that list |
| Validator.IndexOf | lib-vital/haley-js-api/haley-js-api-0.0.1.js:305 | returns the first position holding the value, and -1 exactly when the value is absent |
| Validator.RemoveAll | lib-vital/haley-js-api/haley-js-api-0.0.1.js:301-309 | splicing out the first occurrence of each value to remove, over distinct keys, leaves exactly the ordered difference of the keys and the removed values |
| Validator.CollectDifferences | lib-vital/haley-js-api/haley-js-api-0.0.1.js:334-362 | the comparison loop collects exactly the mismatch entries of the local list, in list order; in strict mode every lookup finds a server descriptor |
| DomainModels.IndexByUriKeys | lib-vital/haley-js-api/haley-js-api-0.0.1.js:279-282 | the dictionary's keys are exactly the URIs of the descriptors, each once, and they are exactly the dictionary's entries |
| DomainModels.IndexByUriOrder | lib-vital/haley-js-api/haley-js-api-0.0.1.js:298-299 | the key list comes in the order in which the URIs first occur in the descriptor list |
| DomainModels.IndexByUriLastWins | lib-vital/haley-js-api/haley-js-api-0.0.1.js:281 | a key holds the last descriptor written under that URI |
| DomainModels.WithoutMembers | lib-vital/haley-js-api/haley-js-api-0.0.1.js:303-309 | the ordered difference holds exactly the elements of the first list missing from the second |
| DomainModels.WithoutDistinct | lib-vital/haley-js-api/haley-js-api-0.0.1.js:303-309 | over distinct keys, each element of the difference occurs once |
| DomainModels.WithoutEmptyIff | lib-vital/haley-js-api/haley-js-api-0.0.1.js:311 | the difference is empty if and only if every element of the first list occurs in the second |
| DomainModels.WithoutPresent | lib-vital/haley-js-api/haley-js-api-0.0.1.js:305-308 | splicing out the one occurrence of a further value equals taking the difference with that value added |
| DomainModels.WithoutAbsent | lib-vital/haley-js-api/haley-js-api-0.0.1.js:306 | a value not in the difference leaves the difference unchanged when it is also removed |
| DomainModels.MismatchesAppend | lib-vital/haley-js-api/haley-js-api-0.0.1.js:336-362 | the entries of a concatenated local list are the entries of the first part followed by those of the second |
| DomainModels.Validate | lib-vital/haley-js-api/haley-js-api-0.0.1.js:261-378 | the specification of the callback's argument: a truthy listing error first, then in strict mode the local-only and server-only reports, then the count-prefixed entries or null; its properties are the ReconcileProperties lemmas |
| DomainModels.FromLocal | lib-vital/haley-js-api/haley-js-api-0.0.1.js:288-291 | the graph object built for a registry entry: URI, name, hash, and the version stored as versionInfo |
| DomainModels.Put | lib-vital/haley-js-api/haley-js-api-0.0.1.js:281 | storing a descriptor under its URI: a new key is appended to the key order, an existing key keeps its place, and the new descriptor replaces the old; its properties are IndexByUriKeys, IndexByUriOrder and IndexByUriLastWins |
| DomainModels.IndexByUri | lib-vital/haley-js-api/haley-js-api-0.0.1.js:279-282 | the dictionary obtained by storing each descriptor in list order, as at lines 281 and 292 |
| DomainModels.Without | lib-vital/haley-js-api/haley-js-api-0.0.1.js:303-309 | the ordered difference computed by both splice loops (also lines 318-324); its properties are WithoutMembers, WithoutDistinct, WithoutEmptyIff and WithoutKeepsOrder |
| DomainModels.LocalOnly | lib-vital/haley-js-api/haley-js-api-0.0.1.js:298-312 | the local keys with the server keys removed; characterised by LocalOnlySpec |
| DomainModels.ServerOnly | lib-vital/haley-js-api/haley-js-api-0.0.1.js:316-327 | the server keys with the local keys removed; characterised by ServerOnlySpec |
| DomainModels.HashMismatch | lib-vital/haley-js-api/haley-js-api-0.0.1.js:352 | the hash entry text "uri local hash: h1 remote hash: h2", with an absent server hash rendered by Render; HashMismatchEntry says when it is produced |
| DomainModels.VersionMismatch | lib-vital/haley-js-api/haley-js-api-0.0.1.js:357 | the version entry text "uri local version: v1 remote version: v2", with an absent server version rendered by Render; VersionMismatchEntry says when it is produced |
| JsText.Render | lib-vital/haley-js-api/haley-js-api-0.0.1.js:352-357 | a present value concatenates as itself and an absent one as "null" (see the "null" line under Left out) |
| DomainModels.Discrepancy | lib-vital/haley-js-api/haley-js-api-0.0.1.js:346-360 | no entry exactly when the descriptors are consistent: a defined local hash equals the server's, and so does a defined local version |
| DomainModels.EntriesFor | lib-vital/haley-js-api/haley-js-api-0.0.1.js:340-360 | at most one entry per descriptor, and none exactly when the server lacks its URI or the pair is consistent |
| DomainModels.Mismatches | lib-vital/haley-js-api/haley-js-api-0.0.1.js:334-362 | the entries of the local list in list order; its properties are MismatchesAppend, MismatchesSplit, MismatchesBound and MismatchesEmptyIff |
| DomainModels.DifferentReport | lib-vital/haley-js-api/haley-js-api-0.0.1.js:364-365 | the count-prefixed report text; DifferencesReported says when it is the result |
| DomainModels.IsTruthy | lib-vital/haley-js-api/haley-js-api-0.0.1.js:269 | the truthiness test of the listing error: present and non-empty |
| JsText.Join | lib-vital/haley-js-api/haley-js-api-0.0.1.js:312 | Array.prototype.join, also used at lines 327 and 365; characterised by JoinAppend |
| JsText.JoinAppend | lib-vital/haley-js-api/haley-js-api-0.0.1.js:312 | joining one part gives that part; joining one more part appends the separator and the part |
| JsText.NatToString | lib-vital/haley-js-api/haley-js-api-0.0.1.js:365 | the decimal text of the entry count is non-empty and all digits; NatToStringRoundTrip reads it back |
| JsText.NatToStringRoundTrip | lib-vital/haley-js-api/haley-js-api-0.0.1.js:365 | the count's decimal text reads back as the count, without a leading zero |
| ReconcileProperties.ListingErrorReported | lib-vital/haley-js-api/haley-js-api-0.0.1.js:269-272 | a non-empty listing error gives exactly the prefix followed by the error, whatever the lists hold |
| ReconcileProperties.EmptyErrorIgnored | lib-vital/haley-js-api/haley-js-api-0.0.1.js:269 | an empty error message behaves like no error at all |
| DomainModels.WithoutKeepsOrder | lib-vital/haley-js-api/haley-js-api-0.0.1.js:303-309 | removing elements by splicing keeps the remaining elements in their original order |
| ReconcileProperties.LocalOnlySpec | lib-vital/haley-js-api/haley-js-api-0.0.1.js:298-312 | the local-only list holds exactly the local URIs the server lacks, each once, in local key order |
| ReconcileProperties.ServerOnlySpec | lib-vital/haley-js-api/haley-js-api-0.0.1.js:316-327 | the server-only list holds exactly the server URIs not loaded locally, each once, in server key order |
| ReconcileProperties.LocalOnlyReported | lib-vital/haley-js-api/haley-js-api-0.0.1.js:296-314 | in strict mode, any local URI missing on the server makes the result the local-only prefix followed by the local-only list joined by ", "; no later check decides |
| ReconcileProperties.ServerOnlyReported | lib-vital/haley-js-api/haley-js-api-0.0.1.js:316-329 | in strict mode, with every local URI on the server and some server URI not local, the local check passes and the result is the server-only prefix followed by the server-only list |
| ReconcileProperties.StrictLookupSucceeds | lib-vital/haley-js-api/haley-js-api-0.0.1.js:303-347 | once the local-only check passes, every registry URI is a key of the server dictionary, so the lookup never yields null |
| ReconcileProperties.MismatchesSplit | lib-vital/haley-js-api/haley-js-api-0.0.1.js:336-362 | each local descriptor contributes its own entries, in place, to the entries of the whole list |
| ReconcileProperties.HashMismatchEntry | lib-vital/haley-js-api/haley-js-api-0.0.1.js:351-354 | a non-null local hash that differs from the server's (a null server hash included) yields exactly one "uri local hash: h1 remote hash: h2" entry, and no version entry |
| ReconcileProperties.VersionMismatchEntry | lib-vital/haley-js-api/haley-js-api-0.0.1.js:356-359 | with the local hash null or equal, a non-null local version that differs yields exactly one version entry |
| ReconcileProperties.NoEntryWhenConsistent | lib-vital/haley-js-api/haley-js-api-0.0.1.js:342-360 | a descriptor without a server counterpart, or one whose defined hash and version match, yields no entry |
| ReconcileProperties.MismatchesBound | lib-vital/haley-js-api/haley-js-api-0.0.1.js:336-365 | there are never more entries than local descriptors |
| ReconcileProperties.MismatchesEmptyIff | lib-vital/haley-js-api/haley-js-api-0.0.1.js:334-364 | no entries are collected if and only if every local descriptor that the server has is consistent with it |
| ReconcileProperties.NonStrictSkipsLocalOnly | lib-vital/haley-js-api/haley-js-api-0.0.1.js:342-344 | outside strict mode, removing a registry entry the server does not list leaves the result unchanged, so it can never cause a failure on its own |
| ReconcileProperties.SetChecksPassIff | lib-vital/haley-js-api/haley-js-api-0.0.1.js:296-331 | both strict set checks pass if and only if the local and server URIs are the same |
| ReconcileProperties.SuccessIff | lib-vital/haley-js-api/haley-js-api-0.0.1.js:364-369 | the result is success if and only if the listing did not fail, in strict mode the URI sets agree, and every local descriptor agrees with its server counterpart |
| ReconcileProperties.DifferencesReported | lib-vital/haley-js-api/haley-js-api-0.0.1.js:364-366 | otherwise the result is "Different domains detected [n]: " followed by the entries, with 1 <= n <= registry size and n rendered in decimal |
| ReconcileProperties.ScenarioLocalOnly | lib-vital/haley-js-api/haley-js-api-0.0.1.js:311-312 | a strict run with local A and an empty server list reports A as loaded only locally |
| ReconcileProperties.ScenarioSameHash | lib-vital/haley-js-api/haley-js-api-0.0.1.js:351-369 | a strict run where A with hash h1 is on both sides succeeds |
| ReconcileProperties.ScenarioVersion | lib-vital/haley-js-api/haley-js-api-0.0.1.js:356-365 | a non-strict run with A at version 1.0 locally and 2.0 on the server reports the single entry "A local version: 1.0 remote version: 2.0" with count 1 |
| ReconcileProperties.ScenarioListingError | lib-vital/haley-js-api/haley-js-api-0.0.1.js:269-270 | the listing error "timeout" gives "Error when listing server domain models: timeout" |

## Left out

- The rest of the facade is not modelled. That covers authentication, opening and closing sessions, callback registration, message sending, file upload and cancellation, download URLs, the listeners and the credentials-cache flag. Each is a one-line delegation to an implementation object that is not part of this model.
- `HaleySession` is not modelled: it is only four null-initialised fields plus forwarding accessors.
- The `HaleyAPI` constructor, `initialize` and the logger are not modelled: they are asynchronous setup.
- The asynchronous `listServerDomainModels` call is not modelled. Its outcome is an input instead: an optional error message and a list of descriptors.
- The `try`/`catch` "Internal error: " path and `logger.error` are not modelled. Strict mode cannot reach a null server lookup (StrictLookupSucceeds), but other paths can still throw. The main one is a local URI that names an inherited `Object.prototype` property, such as "constructor", "toString" or "__proto__", which the server does not list. There `serverDomains[uri]` yields the inherited member, not null, so line 342 does not skip it, and the `get` call at line 347 throws. The source then reports "Internal error: " plus the exception. The model instead skips the entry outside strict mode, and in strict mode reports it as loaded only locally. For "constructor" or "toString" the source gives that same strict-mode message, because `Object.keys` lists them. For "__proto__" the source throws instead: line 292 sets the prototype, so `Object.keys` leaves the key out.
- The global registry and `vitaljs.graphObject` are replaced by a sequence of `LocalDomain` records and the record conversion `FromLocal`. The `name` field is carried but never compared.
- JavaScript loose equality is modelled only for null versus undefined (both are `None`) and for string equality. Errors, hashes and versions that are not strings are not modelled.
- An absent server hash or version is rendered as "null" in an entry. If the graph object returns `undefined`, the source would print "undefined" instead.
- `Object.keys` puts integer-like keys before all others in numeric order, and a `__proto__` key is special. `UriIndex` models plain first-insertion order for every key. A plain `map` does not have inherited members, so lookups of URIs naming `Object.prototype` properties are not modelled either. Such a lookup finds a value in the source even when nothing was stored under that URI.
- ScenarioVersion: the full report is stated as `DifferentReport` of the entry text, with the count's text proved separately. It is not stated as one string literal, because comparing the long literal is too costly for the verifier.
