# Verified models of QAuth

Dafny models of the parts of QAuth whose correctness is not plain from reading one function, with proofs of what
those parts promise for every input, every run or every reachable state.

- `CookieJar.dfy`, `CookieJarProofs.dfy`: the wire suite's cookie jar (RFC 6265) refines a map that never purges.
- `CookieRules.dfy`: what it stores and sends, in terms of header, URL and cookie.
- `CookieOrder.dfy`: when the jar's order is the creation-time order of RFC 6265.
- `LogUrl.dfy`, `LogUrlProofs.dfy`: the URL censor of the request log agrees with percent-decoding.
- `LogUrlForms.dfy`: the prefixes, ids and values it censors, as texts.
- `LogUrlLimits.dfy`: which paths its last check lets pass.
- `LogErrors.dfy`, `LogErrorsProofs.dfy`: the error serializer of the log, on cyclic graphs of errors.
- `OpenApi.dfy`, `OpenApiProofs.dfy`: the two passes over the OpenAPI document.
- `ServiceRoles.dfy`: the plugins and repositories of a process, over any manifest.
- `Der.dfy`, `DerProofs.dfy`: the DER encoder against a strict decoder.
- `Smtp.dfy`, `SmtpProofs.dfy`, `SmtpCommands.dfy`: one connection of the SMTP fixture, and its command lines.
- `StatusClaims.dfy`, `StatusScope.dfy`, `StatusRules.dfy`: paragraphs, segments and scopes of status claims.
- `BrowserSessions.dfy`, `BrowserSessionsProofs.dfy`: the in-memory session service, interleaved with its listeners.
- `KeyStores.dfy`: the two expiring key stores.
- `MultiQueues.dfy`, `MultiBlocks.dfy`, `MultiWrites.dfy`, `MultiInputs.dfy`: when two MULTI blocks of the interaction
  store end, in the store and in what `exec` returns, as if one had run before the other.
- `MultiCommute.dfy`: which two commands on one key commute.
- `Microtasks.dfy`: the microtask queue, and why two blocks run in step.
- `Html.dfy`, `StatusList.dfy`: HTML entities and the packed status list.
- `Reachability.dfy`, `Sorting.dfy`, `Text.dfy`: least closed sets, ascending lists and string operations they share.

`dafny verify dfyconfig.toml` checks the project. Files named `...Proofs` hold the properties, those named
`...Rules`, `...Forms` and `...Commands` what single definitions mean in the terms of a caller, the others the model.

## Reading the model

- Strings are sequences of characters; a regular expression is a scanner from the head of a text that returns the
  length it matches, written for that one pattern with its backtracking where it has any.
- Runtime calls with no body here are parameters (lower and upper case, `Number`, `Date.parse`, base64), so every
  result holds whatever they return. Tables (route manifest, dependency table, status phrases, listed parameter
  names, line tests) are parameters too. The clock is a parameter of each call.
- A JavaScript bit operator reads its operand as 32 bits with sign; `Der.Int32` writes that out. It is why lengths and
  arcs come back exactly below 2^31.
- Arrays shared by reference in the SMTP fixture are indices into a list of arrays, so the sharing is in the model.
- A run is any sequence of steps that do not await: a command of the key stores, an operation of the session service up
  to its first await, one call to a listener, which resolves or rejects. Sessions may be made under any id.
- Every command of the interaction store awaits one microtask and `exec` awaits each command; `Microtasks` derives from
  that that two MULTI blocks run in step, at a distance set by when the second one starts. A hooked GETDEL can stall a
  block for any time, so there are results over every interleaving too. A run of two blocks is serial when its store and
  the answers to both blocks are those of one block run after the other.

## Where the code and its documentation differ

- The cookie jar moves a replaced cookie to the end of its list; section 5.3 of RFC 6265 keeps its creation time. The
  orders are the same exactly while no store replaces an unexpired cookie that is older than an unexpired one of the
  same path that some request carries with it (`CookieOrder.JarKeepsRfcOrder`, input `ReplacedGoesLast`).
- `splitSegments` documents that it is exact under CRLF, and it is; `splitParagraphs` knows LF blank lines only. A CRLF
  page is cut like its LF twin exactly when it has no blank line (`StatusScope.CrlfPageIsCutAlike`, input `CrlfInput`).
- The SMTP fixture removes one of two leading dots; section 4.5.2 of RFC 5321 has a receiver remove a single one too
  (`SmtpProofs.UnstuffingAgrees`, input `UnstuffingInput`).
- A `MULTI` block of the interaction store is documented to run as Redis runs it; it is not atomic. Blocks that name each
  key once at most, as those of the program do, are serial whenever they start exactly when they name the keys on which
  their commands do not commute at one distance (`MultiBlocks.BlocksAreAtomic`, `MultiCommute.AtomicByTable`, inputs
  `MultiInputs.WriteAgainstClaim` and `WriteAgainstComplete`);
  for blocks that write a key more than once see `MultiWrites.SetBlocksAreAtomic` and `WritesAreSerial` (inputs
  `MultiInputs.SetsInterleave` and `TakeInBetween`).
- The last check of the URL censor is documented to catch every spelling of an interaction path; it lets pass exactly the
  paths with white space and those whose first segment is a reserved name (`LogUrlLimits.LoggedShowsExcused`, inputs
  `SpaceInput` and `ReservedInput`).
- The id rewrite is documented to skip dot segments and to leave the two reserved names readable; in front of one of them
  it censors the last dot segment instead. The name stays with all before it exactly when only empty segments lie in
  between (`LogUrlForms.ReservedNameStays` and `DotBeforeReserved`).
- An error inside an object, or inside a list inside a list, is copied to the log unserialized
  (`LogErrorsProofs.RawErrorsInLog`, inputs `RawErrorInputs` and `OverwrittenInput`).
- A listener that rejects keeps the later listeners of that ending from being told
  (`BrowserSessionsProofs.ToldExactlyOnce`, input `SecondIsNeverTold`).
- A session made under the id of a live one replaces it without a record; under the id of an ended one it is live and
  ended at once (`BrowserSessionsProofs.NoSessionIsLost` and `LiveAndEndedAreApart`, input `ReusedIdLosesSession`).
- A DER length, arc or pair of first arcs outside the stated bounds is encoded to something else without an error
  (`DerProofs.LengthRoundTrip` and `OidRoundTrip`, inputs `WhatDoesNotComeBack`).

## Model

| member | source | states |
|---|---|---|
| `CookieJarProofs.JarRefinesMap` | apps/wire-suite/src/helpers/cookie-jar.ts:65-158 | over every run of store, headerFor and get whose clock does not go back, the list jar gives exactly the answers of a map from (name, domain, path) to the last accepted cookie, filtered when read; reading removes nothing from the map, so the purge in headerFor is never observable; which cookies a filtered reading shows is `CookieRules.SentMeans` |
| `CookieJarProofs.StepRefines` | apps/wire-suite/src/helpers/cookie-jar.ts:65-158 | one step keeps list and map related (same cookies in store order, the missing ones expired) and answers alike |
| `CookieJarProofs.StoreRepresents` | apps/wire-suite/src/helpers/cookie-jar.ts:121-127 | a store removes the old cookie of its key even when the new one is refused, and puts an accepted one last |
| `CookieJarProofs.SentIsListing` | apps/wire-suite/src/helpers/cookie-jar.ts:134-144 | what the list sends is the map's listing: exactly the unexpired applicable cookies, longer paths first, earlier stores first among equals |
| `CookieJarProofs.ListingIsUnique` | apps/wire-suite/src/helpers/cookie-jar.ts:143-144 | there is only one such listing, so the reference determines every answer |
| `CookieJarProofs.KeysAreUnique` | apps/wire-suite/src/helpers/cookie-jar.ts:121-127 | no two cookies of a jar that a run reaches share name, domain and path |
| `CookieJarProofs.ReachedRepresents` | apps/wire-suite/src/helpers/cookie-jar.ts:65-158 | the list every run reaches holds the map's cookies in the order of their stores, and those it lacks have expired |
| `CookieJarProofs.SortIsPriorityOrder` | apps/wire-suite/src/helpers/cookie-jar.ts:143-144 | sorting by path length alone is stable: a list in store order comes out in priority order |
| `CookieJar.Sent` | apps/wire-suite/src/helpers/cookie-jar.ts:134-144 | the cookies sent are exactly the stored, unexpired ones that apply; `CookieRules.SentMeans` says in host, path, scheme and time which those are |
| `CookieJarProofs.HeaderSplitsBack` | apps/wire-suite/src/helpers/cookie-jar.ts:145-146 | splitting a header at `; ` gives back exactly the pairs it was joined from |
| `CookieJarProofs.SentHeaderSplitsBack` | apps/wire-suite/src/helpers/cookie-jar.ts:131-158 | in every jar that a run reaches the header splits back into exactly the cookies sent, and get reads the first of them of its name |
| `CookieJarProofs.GetFindsFirst` | apps/wire-suite/src/helpers/cookie-jar.ts:150-158 | get returns the value of the first, highest-priority, cookie sent under that name, and undefined only when there is none |
| `CookieJarProofs.ParsedIsWellFormed` | apps/wire-suite/src/helpers/cookie-jar.ts:67-72 | a stored name is not empty and holds neither `=` nor `;`, a stored value no `;` |
| `CookieJarProofs.EqualLengthMeansEqualPath` | apps/wire-suite/src/helpers/cookie-jar.ts:38-42 | two applicable cookies of equal path length have the same path |
| `CookieJarProofs.DomainMatchingIsPartialOrder` | apps/wire-suite/src/helpers/cookie-jar.ts:33-35 | domain matching is reflexive, antisymmetric and transitive; what it means is `CookieRules.DomainMatchMeans` |
| `CookieJarProofs.PathMatchingIsPartialOrder` | apps/wire-suite/src/helpers/cookie-jar.ts:38-42 | path matching is reflexive, antisymmetric and transitive; what it means is `CookieRules.PathMatchMeans` |
| `CookieJarProofs.MatchesDefaultPath` | apps/wire-suite/src/helpers/cookie-jar.ts:26-30 | a request path matches its default path if and only if it is absolute |
| `CookieJarProofs.AcceptedIsSent` | apps/wire-suite/src/helpers/cookie-jar.ts:74-142 | whatever the jar held, and after any further operations that store nothing under its key, an accepted cookie is sent until it expires with every request to the same host and scheme whose path matches its path |
| `CookieJarProofs.PathlessCookieComesBack` | apps/wire-suite/src/helpers/cookie-jar.ts:74-142 | without an absolute Path attribute that includes the setting URL itself and every path below its default path |
| `CookieJarProofs.RefusedMeansForeign` | apps/wire-suite/src/helpers/cookie-jar.ts:89-97 | the cookie is refused whole if and only if some Domain attribute names a domain the host does not belong to |
| `CookieJarProofs.LastPathWins` | apps/wire-suite/src/helpers/cookie-jar.ts:98-100 | the last Path attribute decides: its value when absolute, the default path otherwise |
| `CookieJarProofs.MaxAgeWins` | apps/wire-suite/src/helpers/cookie-jar.ts:104-119 | the last readable Max-Age decides the expiry whatever Expires says |
| `CookieJarProofs.OtherKeysLeave` | apps/wire-suite/src/helpers/cookie-jar.ts:82-115 | a cookie is secure if and only if some attribute says so; an attribute of one key changes nothing of another |
| `CookieJar.ReadAttributes` | apps/wire-suite/src/helpers/cookie-jar.ts:82-115 | the attribute loop computes the left-to-right effect of the attributes |
| `CookieJar.Jar.Store` | apps/wire-suite/src/helpers/cookie-jar.ts:65-128 | the new list, for every header value and every parse failure |
| `CookieJar.Jar.HeaderFor` | apps/wire-suite/src/helpers/cookie-jar.ts:131-147 | the header of the cookies sent, which `CookieRules.SentMeans` describes; the list loses exactly the expired ones |
| `CookieJar.Jar.Get` | apps/wire-suite/src/helpers/cookie-jar.ts:150-158 | the value read from that header |
| `CookieRules.SentMeans` | apps/wire-suite/src/helpers/cookie-jar.ts:131-144 | whatever the jar holds, a cookie is sent if and only if it is held, its expiry lies ahead, the host is its domain or, unless it is host-only, ends in a dot and its domain, the path is its path or continues it at a slash, and a secure one goes to https: or to localhost, 127.0.0.1 or [::1] |
| `CookieRules.PathMatchMeans` | apps/wire-suite/src/helpers/cookie-jar.ts:38-42 | a path matches if and only if it is the cookie path, or the cookie path and a rest that starts with a slash, or a cookie path that ends in one and any rest |
| `CookieRules.BesideIsNotSent` | apps/wire-suite/src/helpers/cookie-jar.ts:38-42 | in no jar does a cookie of path /p go with a request for /p and a character that is no slash |
| `CookieRules.DomainMatchMeans` | apps/wire-suite/src/helpers/cookie-jar.ts:33-35 | a host matches if and only if it is the domain, or some text, a dot and the domain |
| `CookieRules.OtherHostIsNotSent` | apps/wire-suite/src/helpers/cookie-jar.ts:33-35 | in no jar does a cookie for a domain go to a host that ends in it without a dot before it |
| `CookieRules.DefaultPathMeans` | apps/wire-suite/src/helpers/cookie-jar.ts:26-30 | the path up to its last slash, / when that is empty, and / for a path that is not absolute |
| `CookieRules.StoredMeans` | apps/wire-suite/src/helpers/cookie-jar.ts:121-127 | after a store the list holds the cookies of other names, domains or paths, and the new one unless it has expired or is secure and set from an insecure origin |
| `CookieRules.SetCookieReads` | apps/wire-suite/src/helpers/cookie-jar.ts:65-119 | name, value and any attributes joined by semicolons: nothing is stored if and only if the trimmed name is empty or an attribute names a foreign domain; else the cookie has the trimmed name and value and, under each key, what the last attribute that says something there says, Max-Age before Expires |
| `CookieRules.NoPairReads` | apps/wire-suite/src/helpers/cookie-jar.ts:67-69 | a header without an equals sign before its first semicolon gives no cookie |
| `CookieRules.HeaderForms` | apps/wire-suite/src/helpers/cookie-jar.ts:67-69 | every header is of one of those two forms |
| `CookieRules.AttributesMean` | apps/wire-suite/src/helpers/cookie-jar.ts:75-115 | the loop leaves, for each key, what the last readable attribute says, and the default without one |
| `CookieRules.AttributeReads` | apps/wire-suite/src/helpers/cookie-jar.ts:83-87 | an attribute is split at its first equals sign, both sides trimmed and the key in lower case; without one its value is empty |
| `CookieRules.LeadingDotGoes` | apps/wire-suite/src/helpers/cookie-jar.ts:90 | one leading dot of a Domain is dropped |
| `CookieRules.PairReads` | apps/wire-suite/src/helpers/cookie-jar.ts:153-155 | reading a header back, a pair is split at its first equals sign |
| `CookieRules.IntegersAre` | apps/wire-suite/src/helpers/cookie-jar.ts:106 | Max-Age is read from an optional minus sign and decimal digits, at least one |
| `CookieOrder.JarKeepsRfcOrder` | apps/wire-suite/src/helpers/cookie-jar.ts:121-144 | over every run the jar sends the listing of a reference that keeps creation times (sections 5.3 and 5.4 of RFC 6265), to every request after every operation, if and only if no store replaces an unexpired cookie older than an unexpired rival; then it gives all the reference's answers |
| `CookieOrder.StoreKeepsOrder` | apps/wire-suite/src/helpers/cookie-jar.ts:121-127 | one store keeps that order if and only if it does not replace such a cookie |
| `CookieOrder.RivalFollows` | apps/wire-suite/src/helpers/cookie-jar.ts:121-127 | in the list, for a cookie that replaces one with the same host-only mark: if and only if no unexpired rival follows the replaced cookie |
| `CookieOrder.OrderShows` | apps/wire-suite/src/helpers/cookie-jar.ts:137-144 | the order of the list and of the reference agree on rivals if and only if no request can tell them apart |
| `CookieOrder.RivalsMeet` | apps/wire-suite/src/helpers/cookie-jar.ts:137-142 | some request carries two cookies of equal path length if and only if their paths are equal and one domain is a host of both |
| `CookieOrder.ReplacedGoesLast` | apps/wire-suite/src/helpers/cookie-jar.ts:121-127 | storing a, b and a again: the jar sends b first, the reference a |
| `LogUrlProofs.LoggedPathsAreNamed` | apps/auth-server/src/config/logger.ts:259-334 | in every logged URL, decoded as the check decodes it, every occurrence of an interaction prefix, overlapping ones included, is followed by named segments only or by openapi.json or wallet; `LogUrlForms.UnnamedMeans` says it in texts |
| `LogUrlProofs.LoggedParametersAreCensored` | apps/auth-server/src/config/logger.ts:211-264 | in every logged URL each `?` or `&` parameter whose decoded name is listed has the value `[Redacted]` |
| `LogUrlProofs.TolerantMeansDecodes` | apps/auth-server/src/config/logger.ts:180-199 | the tolerant pattern accepts a spelling if and only if one pass of percent-decoding turns it into the name (sections 2.1 and 2.3 of RFC 3986) |
| `LogUrlProofs.HeadIsParameter` | apps/auth-server/src/config/logger.ts:211-214 | the query pattern matches exactly where a separator is followed by a spelling of a listed name and `=` |
| `LogUrlProofs.RewriteCensors` | apps/auth-server/src/config/logger.ts:211-214 | after the query rewrite every listed parameter has the censor as its value |
| `LogUrlProofs.RewriteIsIdempotent` | apps/auth-server/src/config/logger.ts:211-214 | rewriting again changes nothing |
| `LogUrlProofs.OnlyValuesChange` | apps/auth-server/src/config/logger.ts:211-214 | the URL is cut into pieces of which the rewrite changes only the values of listed parameters |
| `LogUrlProofs.IdsKeepValues` | apps/auth-server/src/config/logger.ts:232-263 | the interaction-id rewrite leaves every listed parameter censored |
| `LogUrlProofs.LayersAreUndone` | apps/auth-server/src/config/logger.ts:300-309 | n passes undo up to n layers of percent-encoding, whatever each layer chose to encode, over text without `%` |
| `LogUrlProofs.DecodeUndoesEncode` | apps/auth-server/src/config/logger.ts:284-304 | one pass undoes one layer of encoding |
| `LogUrl.PercentDecodedForCheck` | apps/auth-server/src/config/logger.ts:300-309 | stopping at the first pass that changes nothing gives the same as always running four |
| `LogUrl.AnyUnnamed` | apps/auth-server/src/config/logger.ts:325-333 | the left-to-right search finds an offending occurrence if and only if one exists anywhere |
| `LogUrl.KeepsAnInteractionSegment` | apps/auth-server/src/config/logger.ts:323-334 | the same of the decoded URL: with `LogUrlForms.UnnamedMeans`, whether some interaction prefix in it is followed by what may not be shown |
| `LogUrl.NoOverlap` | apps/auth-server/src/config/logger.ts:325-333 | a prefix followed by named segments only is overlapped by no other prefix, so skipping overlaps hides nothing |
| `LogUrl.RedactLoggedUrl` | apps/auth-server/src/config/logger.ts:259-264 | the two rewrites, or the censor alone when the decoded result still shows a segment; what that leaves in texts is `LogUrlForms.LoggedShowsNoId` and `LoggedParameterIsCensored` |
| `LogUrlForms.PrefixMeans` | apps/auth-server/src/config/logger.ts:232-269 | a text is found as an interaction prefix if and only if it is /interaction/v, a number without leading zero, perhaps -rc. and a number, and /, or it is /ui/interaction/; where encoded slashes count, each slash may be %2F or %2f |
| `LogUrlForms.IdIsCensored` | apps/auth-server/src/config/logger.ts:232-238 | the segment behind such a prefix, and behind empty and dot segments there, is replaced whole by [Redacted] and nothing before it: every segment but openapi.json and wallet, and but a dot that a slash follows |
| `LogUrlForms.ReservedNameStays` | apps/auth-server/src/config/logger.ts:232-238 | openapi.json and wallet behind a prefix, empty segments between them or not, stay with all before them |
| `LogUrlForms.DotBeforeReserved` | apps/auth-server/src/config/logger.ts:232-238 | with a dot segment among those in between, the last one is censored as if it were the id and the name stays behind it |
| `LogUrlForms.ReservedMeans` | apps/auth-server/src/config/logger.ts:235 | a segment is left out as reserved if and only if it is one of the two names, whole |
| `LogUrlForms.UnnamedMeans` | apps/auth-server/src/config/logger.ts:323-334 | the check objects to a place of the decoded URL if and only if a prefix starts there and what follows it may not: up to ?, #, & or white space, its segments are not all of the empty one, ., .., [Redacted], personal, answer and cancel, and the first that is neither empty nor a dot is not openapi.json or wallet |
| `LogUrlForms.LoggedShowsNoId` | apps/auth-server/src/config/logger.ts:259-334 | whatever URL comes in: when the logged one is, under at most four layers of percent-encoding, a text with an interaction prefix, then only such segments follow the prefix |
| `LogUrlForms.FourLayersAreUndone` | apps/auth-server/src/config/logger.ts:282-309 | the decoder of the check undoes four layers of encoding and leaves the others |
| `LogUrlForms.LoggedParameterIsCensored` | apps/auth-server/src/config/logger.ts:211-264 | whatever URL comes in: in the logged one the text between the = of a listed parameter, however its name is spelled, and the next & is [Redacted] |
| `LogUrlForms.NamesAre` | apps/auth-server/src/config/logger.ts:180-185 | a name can be listed if and only if it is not empty and made of letters, digits and -._~ |
| `LogUrlLimits.LoggedShowsExcused` | apps/auth-server/src/config/logger.ts:311-334 | a logged URL shows an unnamed segment behind an interaction prefix, wherever it stands once decoded, if and only if the path holds white space or its first segment is a reserved name |
| `LogUrlLimits.LoggedFromUrl` | apps/auth-server/src/config/logger.ts:259-334 | from the URL after the two rewrites: it is logged as the censor if and only if the check finds an unnamed segment or nothing else is left, and what is logged shows an unnamed segment if and only if the check finds none and one is excused |
| `LogUrlLimits.ExcusedMeans` | apps/auth-server/src/config/logger.ts:323-334 | the same of any path that the check lets pass |
| `LogUrlLimits.SpaceInput` | apps/auth-server/src/config/logger.ts:311-334 | a percent-encoded letter and an encoded space before the id are logged as they came |
| `LogUrlLimits.ReservedInput` | apps/auth-server/src/config/logger.ts:311-334 | a .. that leads from the reserved name to the id is logged as it came |
| `LogErrorsProofs.ExpandsReachableOnce` | apps/auth-server/src/config/logger.ts:502-570 | on every finite heap, cyclic or not, exactly the errors reachable through fields and lists are expanded, each exactly once |
| `LogErrorsProofs.SerializedIsSafe` | apps/auth-server/src/config/logger.ts:519-570 | no expanded error carries params of a failed query, a rawPacket, a raw cause or more of a command than its name; its message and stack join one part per link of its cause chain, in which a failed query has its SQL for its message, in the stack where the message first occurs; no error is copied raw as a field or list entry; every other field, objects and their members included, is present as it was |
| `LogErrorsProofs.MessageOfChain` | apps/auth-server/src/config/logger.ts:407-417 | the message joins one message per link of the cause chain, and a failed query contributes its SQL only |
| `LogErrorsProofs.TextsOfChain` | apps/auth-server/src/config/logger.ts:407-417 | on every heap the stack joins one part per link with a caused-by line: for a failed query its stack with the first occurrence of its message replaced by its SQL text, for any other error its stack as it is, empty when there is none; the message likewise |
| `LogErrorsProofs.FailedQueryStack` | apps/auth-server/src/config/logger.ts:407-417 | a failed query whose stack is a head without its message, the message and a rest is logged with the SQL text between head and rest |
| `LogErrorsProofs.NameIsRead` | apps/auth-server/src/config/logger.ts:490-494 | the name shown of a command is the string under its first member name, or the name of an error |
| `LogErrorsProofs.LinksAreTheChain` | apps/auth-server/src/config/logger.ts:522-530 | the chain follows cause, repeats nothing and ends only at a non-error or an error met before |
| `LogErrorsProofs.RawErrorsInLog` | apps/auth-server/src/config/logger.ts:502-570 | the log shows an error copied as it is only if an error that fields and lists lead to from the logged one has its errors, or a field it shows, with an error inside an object or inside a list within a list; and if and only if, when what the serializer writes over holds no error |
| `LogErrorsProofs.RawErrorsAssigned` | apps/auth-server/src/config/logger.ts:502-562 | the serializer assigns such a copy, shown in the end or not, if and only if there is such an error, on every heap |
| `LogErrorsProofs.RawEntries` | apps/auth-server/src/config/logger.ts:502-507 | an entry of a serialized list is copied with an error in it if and only if it is an object or a list that holds one |
| `LogErrorsProofs.RawFields` | apps/auth-server/src/config/logger.ts:537-562 | a field contributes such a copy if and only if it is shown, is no command, and is an object that holds an error or a list with such an entry |
| `LogErrorsProofs.ShownIsAssigned` | apps/auth-server/src/config/logger.ts:531-570 | what the log shows raw was assigned; what was assigned raw is shown when an own type, message or stack, and the errors under an own aggregateErrors, hold no error |
| `LogErrorsProofs.OverwrittenInput` | apps/auth-server/src/config/logger.ts:564-569 | a failed query inside an own field type is assigned and not shown |
| `LogErrorsProofs.RawErrorInputs` | apps/auth-server/src/config/logger.ts:502-562 | a failed query under an object in errors, in a field, or in a list of a list reaches the log raw; as a list entry it does not |
| `LogErrorsProofs.ErrorIsCovered` | apps/auth-server/src/config/logger.ts:519-570 | one call expands what it had to and nothing visited before |
| `LogErrors.WalkChain` | apps/auth-server/src/config/logger.ts:522-530 | the loop over causes terminates on cyclic chains and computes message and stack of the chain, whose parts `LogErrorsProofs.TextsOfChain` spells out |
| `LogErrors.SerializeErrorList` | apps/auth-server/src/config/logger.ts:502-507 | the list loop, sharing the visited set with its caller |
| `LogErrors.SerializeErrorLike` | apps/auth-server/src/config/logger.ts:519-570 | the whole serialization of one error and the visited set it leaves; what it shows is `LogErrorsProofs.SerializedIsSafe` |
| `LogErrors.SerializeOneField` | apps/auth-server/src/config/logger.ts:537-562 | what one own field contributes, branch by branch |
| `OpenApi.Search.Visit` | apps/auth-server/src/app/openapi-options.ts:148-165 | the search terminates on cyclic references and marks exactly what the node reaches beyond what was marked |
| `OpenApi.Search.Follow` | apps/auth-server/src/app/openapi-options.ts:155-160 | a reference is followed once; an undefined schema ends the search |
| `OpenApi.Document.KeepReferencedSchemas` | apps/auth-server/src/app/openapi-options.ts:142-175 | the kept schemas are the least closed set of references from the paths |
| `OpenApi.Document.AddErrorResponses` | apps/auth-server/src/app/openapi-options.ts:101-125 | every operation of every path is documented in place, everything else is left |
| `OpenApi.DocumentOperation` | apps/auth-server/src/app/openapi-options.ts:105-121 | both extension keys go, and each status without a response gets one |
| `OpenApi.DocumentedErrorStatuses` | apps/auth-server/src/app/openapi-options.ts:77-88 | the declared statuses with 429, 421 and 500 as the route's settings say, strictly ascending |
| `OpenApiProofs.DocumentIsComplete` | apps/auth-server/src/app/openapi-options.ts:290-291 | after both passes every documented status has a response, declared responses are unchanged, and the shared schema an added response refers to survives if it was registered |
| `OpenApiProofs.ErrorsAreAdded` | apps/auth-server/src/app/openapi-options.ts:111-120 | declared responses stay, every status has an entry, and what is added is the error response of its status |
| `OpenApiProofs.AddedResponseIs` | apps/auth-server/src/app/openapi-options.ts:115-119 | an added response is application/json with a reference to OAuthError on an OAuth endpoint, else application/problem+json with one to Problem, under the decimal notation of a status and with its title |
| `OpenApiProofs.DecimalMeans` | apps/auth-server/src/app/openapi-options.ts:113-114 | the key of a status is its decimal digits without leading zero |
| `OpenApiProofs.OthersAreLeft` | apps/auth-server/src/app/openapi-options.ts:103-107 | of a path item only get, put, post, delete, options, head, patch and trace are documented; all else is left |
| `OpenApiProofs.DecimalIsInjective` | apps/auth-server/src/app/openapi-options.ts:113-114 | two statuses never share a response key |
| `OpenApiProofs.KeptMeansReachable` | apps/auth-server/src/app/openapi-options.ts:142-175 | a schema is kept if and only if it is defined and a chain of references from the paths leads to it |
| `OpenApiProofs.ReferenceMeans` | apps/auth-server/src/app/openapi-options.ts:155-160 | a member counts as a reference to a name if and only if it is $ref with #/components/schemas/ and the name; any other is searched |
| `OpenApiProofs.PathsRefs` | apps/auth-server/src/app/openapi-options.ts:148-166 | the search starts from the references of every operation and of every other member of every path item |
| `OpenApiProofs.OperationRefs` | apps/auth-server/src/app/openapi-options.ts:148-165 | the references of an operation are those of its responses and of its other members |
| `OpenApiProofs.KeepingIsIdempotent` | apps/auth-server/src/app/openapi-options.ts:142-175 | keeping the referenced schemas twice is keeping them once |
| `Reachability.ClosureIsReachable` | apps/auth-server/src/app/openapi-options.ts:148-166 | the least closed set is exactly what walks from the seeds reach |
| `ServiceRoles.PluginSet.Add` | apps/auth-server/src/app/service-roles.ts:288-292 | adding a plugin adds what it needs, once, for cyclic dependencies too |
| `ServiceRoles.PluginsFor` | apps/auth-server/src/app/service-roles.ts:286-297 | the result is the fixed order restricted to the least dependency-closed set that holds the plugins of the roles and their routes |
| `ServiceRoles.RepositoriesFor` | apps/auth-server/src/app/service-roles.ts:304-317 | the fixed order restricted to the repositories of core, routes, plugins, jobs and roles |
| `ServiceRoles.RolesAddUp` | apps/auth-server/src/app/service-roles.ts:286-317 | plugins and repositories of a union of role lists are the unions of their parts |
| `ServiceRoles.InOrderPlaces` | apps/auth-server/src/app/service-roles.ts:296-297 | a listing is the subsequence of the fixed order at exactly the places of the chosen names |
| `ServiceRoles.SeedsOfUnion` | apps/auth-server/src/app/route-manifest.ts:618-620 | the plugins named by roles and served routes add up over role lists |
| `ServiceRoles.RoutePlugins` | apps/auth-server/src/app/route-manifest.ts:618-620 | the plugins of exactly the route modules that serve one of the roles |
| `ServiceRoles.SeedsMean` | apps/auth-server/src/app/service-roles.ts:286-297 | the plugins a process starts from are those of the route modules that share a role with it and those of its roles |
| `ServiceRoles.UsedMeans` | apps/auth-server/src/app/service-roles.ts:304-317 | the repositories it uses are the core ones, those of such route modules, of its plugins, of the jobs of its roles, and of its roles |
| `Reachability.ClosureOfUnion` | apps/auth-server/src/app/service-roles.ts:286-297 | the closure of a union is the union of the closures |
| `DerProofs.LengthRoundTrip` | apps/auth-server/src/testing/x509-der.ts:55-64 | a length header followed by anything decodes to the length and the rest if and only if the length is below 2^31 |
| `DerProofs.LengthIsCanonical` | apps/auth-server/src/testing/x509-der.ts:55-64 | no other octets decode to that length: the header is the one minimal form (sections 8.1.3 and 10.1 of ITU-T X.690) |
| `DerProofs.TlvIsSelfDelimiting` | apps/auth-server/src/testing/x509-der.ts:67-69 | a TLV followed by anything gives back tag, content and rest if and only if the content is below 2^31 octets |
| `DerProofs.TlvIsCanonical` | apps/auth-server/src/testing/x509-der.ts:67-69 | decoded octets are the encoding of what they decode to |
| `DerProofs.TlvIsPrefixFree` | apps/auth-server/src/testing/x509-der.ts:67-69 | no TLV is the beginning of another |
| `DerProofs.NestedParsesBack` | apps/auth-server/src/testing/x509-der.ts:67-74 | every forest of nested and concatenated TLVs parses back to itself |
| `DerProofs.NestedIsCanonical` | apps/auth-server/src/testing/x509-der.ts:67-74 | and no other octets parse to it |
| `DerProofs.IntegerRoundTrip` | apps/auth-server/src/testing/x509-der.ts:77-87 | every non-negative integer decodes back from its content octets |
| `DerProofs.IntegerIsCanonical` | apps/auth-server/src/testing/x509-der.ts:77-87 | and they are the only octets a strict decoder reads as that integer (section 8.3 of ITU-T X.690) |
| `DerProofs.OidRoundTrip` | apps/auth-server/src/testing/x509-der.ts:90-104 | an object identifier decodes back if and only if its first two arcs fit one octet below 128 and its later arcs are below 2^31 (section 8.19 of ITU-T X.690) |
| `DerProofs.ArcDecodes` | apps/auth-server/src/testing/x509-der.ts:94-102 | the octets of an arc are one minimal base-128 subidentifier, whatever follows |
| `DerProofs.WhatDoesNotComeBack` | apps/auth-server/src/testing/x509-der.ts:55-104 | concrete inputs outside those bounds that do not decode back |
| `DerProofs.ExtensionRoundTrip` | apps/auth-server/src/testing/x509-der.ts:135-144 | an extension decodes through its layers to identifier, critical mark and value |
| `DerProofs.KeyUsageRoundTrip` | apps/auth-server/src/testing/x509-der.ts:197-207 | a key usage extension decodes to exactly the given usages |
| `DerProofs.UsageOctets` | apps/auth-server/src/testing/x509-der.ts:175-205 | the octet of a key usage has 0x80 for digitalSignature, 0x40 for nonRepudiation, and so on down to 0x02 for cRLSign, if and only if the usage is listed (section 4.2.1.3 of RFC 5280) |
| `DerProofs.SigningKeyUsage` | apps/auth-server/src/testing/x509-der.ts:197-207 | the sixteen octets of the extension for digitalSignature alone |
| `DerProofs.NamedBitsDecode` | apps/auth-server/src/testing/x509-der.ts:197-207 | a strict named-bit-list decoder reads exactly the set |
| `Der.KeyUsageContent` | apps/auth-server/src/testing/x509-der.ts:197-205 | the loop lists exactly the given bits with no trailing zero bit (section 11.2 of ITU-T X.690, section 4.2.1.3 of RFC 5280) |
| `Der.KeyUsageExtension` | apps/auth-server/src/testing/x509-der.ts:197-207 | that content wrapped as the critical keyUsage extension |
| `Der.DerLength` | apps/auth-server/src/testing/x509-der.ts:55-64 | the loop leaves the digits of the 32-bit shifts |
| `Der.DerInteger` | apps/auth-server/src/testing/x509-der.ts:77-87 | base-256 digits with a zero octet before a leading bit of 1 |
| `Der.DerOid` | apps/auth-server/src/testing/x509-der.ts:90-104 | one octet for two arcs, then each arc's octets |
| `Der.AtMostFourDigits` | apps/auth-server/src/testing/x509-der.ts:57-63 | the digit count always fits its octet |
| `SmtpProofs.CutsDoNotMatter` | apps/auth-server/src/testing/smtp-fixture.ts:159-167 | two ways to cut one byte stream leave the same session, replies, logins and messages |
| `SmtpProofs.ChunksDoNotMatter` | apps/auth-server/src/testing/smtp-fixture.ts:159-167 | chunk by chunk or all at once is the same from any state whose buffer holds no line end |
| `SmtpProofs.NoCrlfLeft` | apps/auth-server/src/testing/smtp-fixture.ts:159-167 | after each event the buffer holds no CRLF |
| `SmtpProofs.MessageIsRecorded` | apps/auth-server/src/testing/smtp-fixture.ts:92-143 | DATA, any dot-stuffed lines and the final dot record exactly those lines joined by CRLF and change nothing else but two replies |
| `SmtpProofs.MessageIsRecordedHoweverCut` | apps/auth-server/src/testing/smtp-fixture.ts:92-167 | however the bytes are cut into chunks |
| `SmtpProofs.NoLinesOutsideData` | apps/auth-server/src/testing/smtp-fixture.ts:92-111 | whatever was received, no data line is held outside DATA |
| `SmtpProofs.RunKeeps` | apps/auth-server/src/testing/smtp-fixture.ts:92-157 | messages are only appended and keep an existing recipient list |
| `SmtpProofs.UnstuffingAgrees` | apps/auth-server/src/testing/smtp-fixture.ts:99-101 | the fixture unstuffs a line as section 4.5.2 of RFC 5321 says if and only if a client that stuffs can have sent it |
| `SmtpProofs.RecordedRecipientsChange` | apps/auth-server/src/testing/smtp-fixture.ts:96-98 | a line changes the recipients of a recorded message if and only if it runs as RCPT while the list is still shared |
| `SmtpProofs.SharingBeginsAndEnds` | apps/auth-server/src/testing/smtp-fixture.ts:134-147 | the list is shared from the end of a message until the next MAIL or RSET |
| `SmtpProofs.SharedListInput` | apps/auth-server/src/testing/smtp-fixture.ts:92-143 | MAIL, RCPT b, DATA, dot, RCPT c: the message recorded for b is then also for c |
| `SmtpProofs.UnstuffingInput` | apps/auth-server/src/testing/smtp-fixture.ts:92-111 | the line .a inside DATA is recorded with its dot |
| `Smtp.Connection.OnData` | apps/auth-server/src/testing/smtp-fixture.ts:159-167 | the loop handles every complete line in order and keeps the rest |
| `Smtp.Connection.HandleLine` | apps/auth-server/src/testing/smtp-fixture.ts:92-157 | one line: data, credentials or command |
| `Smtp.Connection.HandleCommand` | apps/auth-server/src/testing/smtp-fixture.ts:117-156 | the command table; `SmtpCommands.WordsMean` lists it by the first word of the line, and `MailSetsSender` and `RcptAddsRecipient` say which address is read |
| `Smtp.Connection.HandleData` | apps/auth-server/src/testing/smtp-fixture.ts:93-110 | a data line is kept, a lone dot records the message |
| `SmtpCommands.MailSetsSender` | apps/auth-server/src/testing/smtp-fixture.ts:51-54 | MAIL with any text, an address in angle brackets and any text, such as MAIL FROM:<a@b>, sets the sender to that address and starts an empty recipient list |
| `SmtpCommands.RcptAddsRecipient` | apps/auth-server/src/testing/smtp-fixture.ts:51-54 | RCPT so formed appends exactly that address to the current list |
| `SmtpCommands.BareAddress` | apps/auth-server/src/testing/smtp-fixture.ts:51-54 | without an opening bracket that a closing one follows the address is the argument without outer white space |
| `SmtpCommands.WordsMean` | apps/auth-server/src/testing/smtp-fixture.ts:117-156 | what each command word, in any case, does to the session, and that any other word changes nothing but the replies |
| `SmtpCommands.LineReads` | apps/auth-server/src/testing/smtp-fixture.ts:117-118 | the word up to the first space, and all behind it as the argument |
| `SmtpCommands.AuthReads` | apps/auth-server/src/testing/smtp-fixture.ts:124-133 | AUTH PLAIN alone asks for credentials, with a third word it signs in with that word, and any other mechanism is refused |
| `SmtpCommands.ShortCredentials` | apps/auth-server/src/testing/smtp-fixture.ts:78-90 | credentials without a password, or without a user too, are a refused login with empty ones |
| `SmtpCommands.UnstuffedMeans` | apps/auth-server/src/testing/smtp-fixture.ts:98-101 | of two leading dots one goes, and any other line stays |
| `SmtpProofs.TwoWaysToSignIn` | apps/auth-server/src/testing/smtp-fixture.ts:112-133 | credentials sent with AUTH or on the next line leave the same session but for the request for them |
| `SmtpProofs.LoginsHoldInEveryRun` | apps/auth-server/src/testing/smtp-fixture.ts:78-157 | whatever was received: the user is that of the last accepted login, a login was accepted if and only if it had the password set, each login got its verdict in order, and recorded messages name users who had signed in |
| `SmtpProofs.SignInMeans` | apps/auth-server/src/testing/smtp-fixture.ts:78-90 | a sign-in is one login and one reply, and changes the user only when it is accepted |
| `SmtpProofs.CredentialsAreRead` | apps/auth-server/src/testing/smtp-fixture.ts:78-90 | identity, user and password joined by NUL (section 2 of RFC 4616) are read as they were sent |
| `StatusClaims.SplitParagraphs` | apps/docs-site/src/invariants/status-claims.ts:106-117 | each paragraph is the slice at its recorded start, exactly one blank-line match lies between neighbours, none starts inside one, and they cover the page |
| `StatusRules.BreakMeans` | apps/docs-site/src/invariants/status-claims.ts:106-114 | a paragraph break is a newline, any spaces and tabs, and newlines up to the next other character, and nothing else is |
| `StatusRules.BreakIsTaken` | apps/docs-site/src/invariants/status-claims.ts:106-114 | it is taken whole |
| `StatusScope.ParagraphsAreUnique` | apps/docs-site/src/invariants/status-claims.ts:106-117 | that determines the paragraphs |
| `StatusScope.CrlfPageIsOneParagraph` | apps/docs-site/src/invariants/status-claims.ts:108 | a page with only CRLF line ends is one paragraph, whatever blank lines it has |
| `StatusScope.CrlfPageIsCutAlike` | apps/docs-site/src/invariants/status-claims.ts:106-117 | a page whose line ends are all CRLF is cut like its LF twin if and only if it has no blank line |
| `StatusScope.SameParagraphMeans` | apps/docs-site/src/invariants/status-claims.ts:106-117 | on every page, mixed ones too, two places are in one paragraph if and only if no two newlines between them have only spaces and tabs between |
| `StatusScope.CrlfInput` | apps/docs-site/src/invariants/status-claims.ts:108 | a, blank line, b: two paragraphs with LF, one with CRLF |
| `StatusClaims.PartsOfText` | apps/docs-site/src/invariants/status-claims.ts:168 | lines and terminators alternate and join to the text; no line holds a newline |
| `StatusRules.PartsAreUnique` | apps/docs-site/src/invariants/status-claims.ts:168 | lines without a newline and line ends in turn, where a carriage return before a newline belongs to the line end, are the parts of the text they join to |
| `StatusRules.PartsAreLinesAndEnds` | apps/docs-site/src/invariants/status-claims.ts:168 | and the parts of every text are such |
| `StatusClaims.SplitSegments` | apps/docs-site/src/invariants/status-claims.ts:167-194 | each line is in one segment; a segment starts exactly at a symbol or list line or after a symbol line |
| `StatusScope.SegmentsAreSlices` | apps/docs-site/src/invariants/status-claims.ts:167-194 | each segment is the slice at its recorded start and exactly one LF or CRLF lies between neighbours |
| `StatusScope.ListSegmentIsOneBullet` | apps/docs-site/src/invariants/status-claims.ts:181-185 | a list segment holds one list line, its first |
| `StatusScope.ClauseHoldsMatch` | apps/docs-site/src/invariants/status-claims.ts:197-203 | a match without `;` lies inside its clause |
| `StatusScope.MatchStaysInSegment` | apps/docs-site/src/invariants/status-claims.ts:250-253 | a match without line end stays in the segment it starts in |
| `StatusScope.ScopeContainsMatch` | apps/docs-site/src/invariants/status-claims.ts:239-268 | for every match without line end and `;` in a paragraph the scope contains the match, and inside a bullet the scope is a piece of that bullet |
| `StatusScope.ComputeScope` | apps/docs-site/src/invariants/status-claims.ts:239-268 | the paragraph, the segment and the scope, with the bullets a prose segment introduces |
| `StatusRules.ClauseIs` | apps/docs-site/src/invariants/status-claims.ts:197-203 | the clause of a match runs from behind the last ; before it, or the start, to the first ; behind it, or the end |
| `StatusRules.ClauseOfFirst` | apps/docs-site/src/invariants/status-claims.ts:198 | a ; that opens the text and the match is cut off |
| `StatusRules.ListParagraphMeans` | apps/docs-site/src/invariants/status-claims.ts:136-139 | a paragraph is a list paragraph if and only if its first line that is not white space is a list line |
| `BrowserSessionsProofs.NoSessionIsLost` | apps/auth-server/src/testing/browser-sessions.ts:108-233 | over every interleaved run the latest session made under an id is live or recorded as ended, and only sessions that were made are; while no ended id is used again a session is lost if and only if a different one was made under its id |
| `BrowserSessionsProofs.EverySessionIsKept` | apps/auth-server/src/testing/browser-sessions.ts:108-233 | when every session has an id of its own, the sessions made are exactly those live or ended, and none is both |
| `BrowserSessionsProofs.LiveAndEndedAreApart` | apps/auth-server/src/testing/browser-sessions.ts:114-165 | live and ended ids are disjoint throughout a run if and only if no session is made under the id of an ended one |
| `BrowserSessionsProofs.ReusedIdLosesSession` | apps/auth-server/src/testing/browser-sessions.ts:150-165 | two sessions made under one id: the first is gone without a record |
| `BrowserSessionsProofs.StepKeepsRecords` | apps/auth-server/src/testing/browser-sessions.ts:114-127 | a step keeps every ended record if it ends no live session under the id of an ended one, and only if, once the clock has moved on since the records were made |
| `BrowserSessionsProofs.RecordsStay` | apps/auth-server/src/testing/browser-sessions.ts:114-127 | over any stretch of a run of such steps every ended record stays as it was |
| `BrowserSessionsProofs.RecordNeverChanges` | apps/auth-server/src/testing/browser-sessions.ts:114-127 | so a session ends once and its record never changes while no session is made under an ended id |
| `BrowserSessionsProofs.ToldExactlyOnce` | apps/auth-server/src/testing/browser-sessions.ts:128-132 | a session that ended is reported by exactly one ending with the record kept; that ending tells a listener at most once, and when it is over it has told exactly the listeners subscribed at the ending before which none rejected |
| `BrowserSessionsProofs.CalledAtMostOnce` | apps/auth-server/src/testing/browser-sessions.ts:128-132 | the same of every ending of every run, ids used again or not |
| `BrowserSessionsProofs.WaitingIsNext` | apps/auth-server/src/testing/browser-sessions.ts:129-131 | in every state of a run an ending that has a listener left to call can call it, and the first one waiting is the next |
| `BrowserSessionsProofs.RejectionIsRecorded` | apps/auth-server/src/testing/browser-sessions.ts:129-131 | the listener that ended the calls is the one whose turn rejected |
| `BrowserSessionsProofs.SecondIsNeverTold` | apps/auth-server/src/testing/browser-sessions.ts:128-132 | two listeners of which the first rejects: the ending is over and the second was never told |
| `BrowserSessionsProofs.AudienceIsSubscribed` | apps/auth-server/src/testing/browser-sessions.ts:120-132 | the audience of an ending are the listeners subscribed at that moment |
| `BrowserSessionsProofs.RevokeAgain` | apps/auth-server/src/testing/browser-sessions.ts:177-182 | every later revoke answers already_ended with the same record and changes nothing |
| `BrowserSessionsProofs.OtherRealmsLeave` | apps/auth-server/src/testing/browser-sessions.ts:114-165 | an operation of another realm, or of none, leaves a realm's sessions and records alone if and only if it makes no session over a live one of the realm and ends none over a record of the realm |
| `BrowserSessionsProofs.RealmsAreSeparate` | apps/auth-server/src/testing/browser-sessions.ts:108-233 | over any stretch of a run of such operations the realm stays as it was |
| `BrowserSessionsProofs.OwnIdsKeepRealmsApart` | apps/auth-server/src/testing/browser-sessions.ts:108-233 | when every session has an id of its own no operation of another realm ever changes a realm |
| `BrowserSessionsProofs.StepKept` | apps/auth-server/src/testing/browser-sessions.ts:108-233 | every step keeps what links live sessions, records and sessions made |
| `BrowserSessionsProofs.StepTold` | apps/auth-server/src/testing/browser-sessions.ts:108-233 | every step keeps the count of calls to each listener |
| `BrowserSessionsProofs.ReusedIdCannotBeRevoked` | apps/auth-server/src/testing/browser-sessions.ts:171-182 | a session under an ended id of its realm cannot be revoked: the old record is answered and it stays live |
| `BrowserSessions.Service.EndAll` | apps/auth-server/src/testing/browser-sessions.ts:114-134 | exactly the matching sessions of the realm end, in id order, each with its own reading of the clock, and the listeners found are to be called |
| `BrowserSessions.Service.Revoke` | apps/auth-server/src/testing/browser-sessions.ts:171-192 | the four outcomes and the state each leaves |
| `BrowserSessions.Service.RevokeAllForUser` | apps/auth-server/src/testing/browser-sessions.ts:193-203 | the user's sessions but the excepted and the newer ones end; `BrowserSessionsProofs.RevokedForUser` says which are live afterwards |
| `BrowserSessions.Service.RevokeAllForRealm` | apps/auth-server/src/testing/browser-sessions.ts:204-212 | the realm's sessions active since the given time, counted |
| `BrowserSessionsProofs.RevokedForUser` | apps/auth-server/src/testing/browser-sessions.ts:193-203 | after it a session is live if and only if it was and has another realm or user, is the excepted one, or was created at or after the given time; the records returned are those of the others |
| `BrowserSessionsProofs.RevokedForRealm` | apps/auth-server/src/testing/browser-sessions.ts:204-212 | after it a session is live if and only if it was and has another realm or was last seen before the given time; the records are those of the others |
| `BrowserSessionsProofs.RevokedOne` | apps/auth-server/src/testing/browser-sessions.ts:171-192 | a user who names no owner is refused; a record of the id in the realm is returned to its owner and nothing changes; otherwise exactly the live session of that id, realm and owner ends, and its record is returned |
| `BrowserSessionsProofs.OthersKeepOrder` | apps/auth-server/src/testing/browser-sessions.ts:226-231 | unsubscribing takes out that listener and keeps the order of the others |
| `BrowserSessions.Service.Get` | apps/auth-server/src/testing/browser-sessions.ts:166-170 | a session of the realm that has not expired |
| `BrowserSessions.Service.Create` | apps/auth-server/src/testing/browser-sessions.ts:150-165 | a live session under its own id |
| `BrowserSessions.Service.OnSessionsEnded` | apps/auth-server/src/testing/browser-sessions.ts:226-231 | a listener is subscribed once |
| `BrowserSessions.Service.Deliver` | apps/auth-server/src/testing/browser-sessions.ts:129-131 | one waiting listener of an ending is told |
| `BrowserSessions.Service.Fail` | apps/auth-server/src/testing/browser-sessions.ts:129-131 | one waiting listener is told and rejects, and the others are not called |
| `Html.DecodeUndoesEscape` | apps/auth-server/src/testing/e2e-harness.ts:1405-1412 | the five ordered replaces undo escaping for every text |
| `Html.UndoOne` | apps/auth-server/src/testing/e2e-harness.ts:1405-1412 | on text whose `&` is escaped each replace undoes exactly one kind of entity |
| `Html.EscapedIsInert` | apps/docs-site/src/integrations/graph-pages.ts:35-46 | escaped text holds no markup character and each `&` starts an entity |
| `Html.EscapeMeans` | apps/docs-site/src/integrations/graph-pages.ts:35-46 | the five characters become `&amp;`, `&lt;`, `&gt;`, `&quot;` and `&#39;`, and every other character stays, wherever it stands |
| `Html.AmpersandFirstIsWrong` | apps/auth-server/src/testing/e2e-harness.ts:1397-1404 | with `&amp;` first an escaped `&lt;` would become `<` |
| `ExpiringStore.LocksDoNotOverlap` | apps/auth-server/src/testing/fake-id-jag-issuer.ts:149-193 | two stores of one key by SET EX s NX with no plain store between them are at least s seconds apart, over every run |
| `ExpiringStore.FreeAgain` | apps/auth-server/src/testing/fake-id-jag-issuer.ts:149-193 | a key stored with EX s and not since has its value for exactly s seconds; then it is free and NX stores, not before; without EX it has its value for good |
| `ExpiringStore.OptionsRead` | apps/auth-server/src/testing/fake-id-jag-issuer.ts:165-181 | the options in their usual forms |
| `ExpiringStore.HeldStep` | apps/auth-server/src/testing/fake-id-jag-issuer.ts:153-185 | every operation but a plain store keeps the key held until its deadline |
| `ExpiringStore.ExpiringRedis.Set` | apps/auth-server/src/testing/fake-id-jag-issuer.ts:164-185 | the option loop with its errors, then the store |
| `ExpiringStore.ExpiringRedis.Get` | apps/auth-server/src/testing/fake-id-jag-issuer.ts:163 | the value of an unexpired key |
| `ExpiringStore.ExpiringRedis.Live` | apps/auth-server/src/testing/fake-id-jag-issuer.ts:153-160 | an expired entry is dropped when looked at |
| `ExpiringStore.ParseFrom` | apps/auth-server/src/testing/fake-id-jag-issuer.ts:165-181 | an accepted EX is a positive number of seconds |
| `InteractionStore.TakeReturnsLatest` | apps/auth-server/src/testing/interaction-redis.ts:81-102 | over every interleaving a successful GETDEL returns the value of the latest stored SET of its key |
| `InteractionStore.TakenAtMostOnce` | apps/auth-server/src/testing/interaction-redis.ts:81-88 | two successful GETDELs of a key have a stored SET between them |
| `InteractionStore.Origin` | apps/auth-server/src/testing/interaction-redis.ts:52-102 | what a key holds was stored by one SET since which nothing touched the key |
| `MultiQueues.SerialByKey` | apps/auth-server/src/testing/interaction-redis.ts:161-185 | a run of two blocks is serial, in its store and in what exec returns to both, if and only if there is one serial order that it agrees with on every key; for all commands, of one key each |
| `MultiQueues.SameOnKeys` | apps/auth-server/src/testing/interaction-redis.ts:161-185 | runs that agree on every key leave one store and answer alike, DEL of several keys included |
| `MultiBlocks.BlocksAreAtomic` | apps/auth-server/src/testing/interaction-redis.ts:161-185 | two blocks that name each key once at most and run in step are serial, whenever the second starts and from every store, if and only if they name all keys on which their commands do not commute at one distance; GET, GETDEL, SET with NX and XX, DEL of any keys, ZADD and ZREM |
| `MultiBlocks.StallingBlocksAreAtomic` | apps/auth-server/src/testing/interaction-redis.ts:81-102 | when a block may stall anywhere every interleaving is serial from every store if and only if one command of each block names all the keys on which their commands do not commute |
| `MultiCommute.AtomicByTable` | apps/auth-server/src/testing/interaction-redis.ts:81-185 | both conditions read off the commands of the two blocks |
| `MultiCommute.ClashTable` | apps/auth-server/src/testing/interaction-redis.ts:64-131 | two blocks clash on a key if and only if both name it and the table says that their commands on it do not commute |
| `MultiCommute.CommuteTable` | apps/auth-server/src/testing/interaction-redis.ts:64-131 | two commands on one key leave the same and answer alike in both orders, whatever is held there, if and only if the table says so: by the kind of the commands, NX and XX, the times, what they write, and the member |
| `MultiBlocks.AlignedIsSerial` | apps/auth-server/src/testing/interaction-redis.ts:161-185 | blocks so aligned are serial at every start |
| `MultiBlocks.TwoOrdersAreNotSerial` | apps/auth-server/src/testing/interaction-redis.ts:161-185 | a run that takes two such keys in different orders is not serial from some store, counts of a DEL of several keys notwithstanding |
| `MultiBlocks.SameShapeIsAtomic` | apps/auth-server/src/testing/interaction-redis.ts:161-185 | blocks that name the keys they share in the same places are atomic |
| `MultiBlocks.DisjointBlocksAreAtomic` | apps/auth-server/src/testing/interaction-redis.ts:161-185 | blocks of any commands with no key in common: every interleaving is both serial orders, in store and answers |
| `MultiBlocks.OwnKeysAreSerial` | apps/auth-server/src/testing/interaction-redis.ts:161-185 | under a key that only one block names every interleaving leaves what both serial orders leave, and a command on such keys alone gets the answer it gets there |
| `MultiWrites.WritesAreSerial` | apps/auth-server/src/testing/interaction-redis.ts:81-102 | an interleaving of blocks of GETDEL and of SET without NX and XX, any number on one key, is serial from every store if and only if one serial order leaves each key with the same last write and shows each GETDEL a write that reads alike |
| `MultiWrites.WriteBlocksAreAtomic` | apps/auth-server/src/testing/interaction-redis.ts:161-185 | the same of blocks in step, over all starts |
| `MultiWrites.SetBlocksAreAtomic` | apps/auth-server/src/testing/interaction-redis.ts:161-185 | blocks of SET in step are serial, whenever the second starts and from every store, if and only if all keys they leave differently are last written at one distance |
| `MultiWrites.StallingSetsAreAtomic` | apps/auth-server/src/testing/interaction-redis.ts:81-102 | in every interleaving if and only if at most one key is left differently |
| `MultiInputs.SameKindIsAtomic` | apps/auth-server/src/app/helpers/interaction-record.ts:647-655 | two blocks of one kind on one interaction are atomic whenever the second starts |
| `MultiInputs.WritesOfOneKind` | apps/auth-server/src/app/helpers/interaction-record.ts:647-691 | storing and writing an interaction are of one kind |
| `MultiInputs.ClaimsOfOneKind` | apps/auth-server/src/app/helpers/interaction-record.ts:779-911 | so are two claims, two completions, and two puttings back, with their records or without |
| `MultiInputs.StoreNewMeans` | apps/auth-server/src/app/helpers/interaction-record.ts:647-658 | storing a new interaction, run alone: a live record stays and exec says nil, else the record is stored until its deadline; the turn is set and the member listed either way |
| `MultiInputs.WriteNextMeans` | apps/auth-server/src/app/helpers/interaction-record.ts:681-693 | writing the next state: the record only over a live one, nil without it; the turn only where none is live; the member is moved only if it is listed |
| `MultiInputs.PutBackMeans` | apps/auth-server/src/app/helpers/interaction-record.ts:895-911 | putting back lists the member and, when there was a record, sets it unless one is live |
| `MultiInputs.WriteAgainstClaim` | apps/auth-server/src/app/helpers/interaction-record.ts:681-875 | a write and a claim that start together, with a live record: the store is that of the claim before the write, yet the claim is answered the new record; the run is not serial |
| `MultiInputs.WriteAgainstComplete` | apps/auth-server/src/app/helpers/interaction-record.ts:681-785 | a write that starts just before a completion, with a live record: the write is told OK, the record is deleted and the turn is left behind; the run is not serial |
| `MultiInputs.TakeInBetween` | apps/auth-server/src/testing/interaction-redis.ts:161-185 | SET x 1, SET x 2 against GETDEL x: the store is serial and GETDEL answers 1, where the serial orders answer 2 and nothing |
| `MultiInputs.SetsInterleave` | apps/auth-server/src/testing/interaction-redis.ts:161-185 | three SET against two leave one key from each block at one start; two against two, the same keys in the same places, at none |
| `Microtasks.BlocksRunInStep` | apps/auth-server/src/testing/interaction-redis.ts:50-185 | from the queue of microtasks, whichever block starts first and however many jobs later the other: command i of the first comes before command j of the second if and only if i < j plus a lead set by the start |
| `Microtasks.EveryLeadHasItsStart` | apps/auth-server/src/testing/interaction-redis.ts:161-185 | every lead is that of some start |
| `InteractionStore.InteractionRedis.GetDel` | apps/auth-server/src/testing/interaction-redis.ts:81-88 | the live value, and the key is gone |
| `InteractionStore.InteractionRedis.Set` | apps/auth-server/src/testing/interaction-redis.ts:89-102 | NX, XX and a deadline already past |
| `InteractionStore.SetMeans` | apps/auth-server/src/testing/interaction-redis.ts:89-102 | SET answers nothing if and only if NX meets a live key or XX none, the words in any case; a deadline already past removes the key, any other stores the value with it |
| `InteractionStore.DeadlineIsRead` | apps/auth-server/src/testing/interaction-redis.ts:94-95 | the deadline is the number after the first PXAT, and there is none without |
| `InteractionStore.DeadlineText` | apps/auth-server/src/testing/interaction-redis.ts:94-95 | given as text it is what Number makes of it |
| `InteractionStore.InteractionRedis.Del` | apps/auth-server/src/testing/interaction-redis.ts:103-110 | the count, a string before a sorted set |
| `InteractionStore.InteractionRedis.Zadd` | apps/auth-server/src/testing/interaction-redis.ts:111-124 | the flag loop, then NX and XX, the new score and the count |
| `InteractionStore.ZaddReads` | apps/auth-server/src/testing/interaction-redis.ts:111-124 | leading words NX and XX, in any case, are flags; the score and the member follow; what it stores and answers |
| `InteractionStore.InteractionRedis.Zrem` | apps/auth-server/src/testing/interaction-redis.ts:125-131 | the member goes, and the set with its last member |
| `InteractionStore.InteractionRedis.Live` | apps/auth-server/src/testing/interaction-redis.ts:52-60 | an expired string is dropped when looked at |
| `StatusList.PackStatusList` | apps/auth-server/src/testing/mock-status-list.ts:83-91 | reading two bits at position i gives entry i modulo 4, padding reads as zero, and no entry already written is disturbed |
| `StatusList.PackedBytes` | apps/auth-server/src/testing/mock-status-list.ts:83-91 | each byte is the number its four entries modulo 4 make in base 4, the first of them lowest |
| `StatusList.PackedLengthMeans` | apps/auth-server/src/testing/mock-status-list.ts:85 | as many bytes as the entries need, and at least one |
| `StatusList.OrIntoFreeSlot` | apps/auth-server/src/testing/mock-status-list.ts:90 | OR into a free slot sets it and leaves the other slots |
| `StatusList.PackingKeepsEntries` | apps/auth-server/src/testing/mock-status-list.ts:83-91 | two lists pack to the same bytes if and only if they agree modulo 4 |

## Left out

- Application wiring, plugin registration, listeners, environment schemas, the migration runner and HTTP helpers: finite decision tables and input and output.
- Cryptography, base64, deflate, X.509 parsing and JOSE: calls into libraries.
- `URL` parsing, `Date.parse`, `Number` and case mapping: parameters, see above; rounding of numbers beyond 2^53 is not modelled.
- UTF-16 code units: characters are Unicode scalars, and no modelled operation looks inside a surrogate pair.
- Later occurrences of a failed query's message in its stack: the code replaces the first one only, and so does the model.
- Plain objects that refer back to themselves: a value that is no error is a tree, with errors at its leaves.
- `typeof err.constructor` and non-string messages: an error node carries its type name, and a value is an error exactly when it is in the heap.
- The text of an OID is given as its arcs, at least two of them; `parseInt` of the dotted form is not modelled.
- The rest of the certificate encoder (names, times, alternative names, signature): concatenations of the TLVs that are modelled.
- The OpenAPI document keeps its objects as maps: the order of keys and other document members are not modelled, and an absent `paths` is an empty one.
- Two operations of a document that are one shared object: each operation is a value of its own.
- `waitForMessages`, sockets and what happens on the wire after `QUIT`: replies are what the session writes.
- Several SMTP connections at once: each connection appends to the shared lists what its own session records.
- The rejection a caller of `revoke` sees when a listener rejects: the ending has happened and its outcome is not returned.
- Session listings, `endLapsed` and `purge` of the session fake: they read or do nothing.
- `createMemorySessionRedis`, and `zrangebyscore` of the interaction store: it reads only, and no MULTI block of the program holds it.
- The clock of a MULTI command: each carries its own reading, the same one in the runs that are compared.
- Commands of other callers that run between those of two blocks, and three blocks at once: every pair of blocks is covered, and `InteractionStore.Origin` covers any run key by key.
- `keys()` of the expiring store: it looks at every key as `get` does.
- `findStaleStatusClaims`, the status phrases and the two line patterns: which lines match is a parameter.
- Smtp.Connection.HandleLine: the shared list of waiters is not modelled.
- DerProofs.NestedParsesBack: goes one way, for contents below 2^31 octets; `DerProofs.TlvIsSelfDelimiting` has both.
- StatusScope.ScopeContainsMatch: says nothing of a match that holds a line end or a `;`.
