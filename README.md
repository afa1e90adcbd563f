# web-experiments in Dafny

A model of the client-side A/B-testing widget `web-experiments`, with proofs about it. A page
wraps its alternatives in a `<web-experiment experiment-id="…">` element holding
`<web-experiment-variant variant-id="…" weight="…">` children. On first connection the controller
decides which child to show. There are three tiers:

1. A child marked `selected` wins.
2. Otherwise a variant id remembered in a cookie or in local storage is reused, if a child still
   carries it. A stale id is cleared.
3. Otherwise a weighted random draw picks a child, and its id is remembered.

The controller then shows that child and hides the others. It dispatches a
`web-experiment:variant-assigned` event and reports the impression to Google Analytics (`gtag`)
and/or Google Tag Manager (`dataLayer`). Reconnecting the element leaves the controller's own
state, its storage and the analytics hooks as they were; each child, reconnected with it, hides
itself again.

The modules, leaves first:

- `Wrappers`: `Option` and `Result`.
- `Strings`: JavaScript's `split`, `join` and `trim` on strings, with split/join round trips.
- `UriComponent`: `encodeURIComponent` and `decodeURIComponent` as defined in ECMA-262. This is the
  percent-encoding of section 2.1 of RFC 3986 over the UTF-8 octets of RFC 3629. It includes the
  proof that decoding an encoding gives back the original string.
- `BrowserStorage`: the two stores the handler writes to.
  - A cookie jar that behaves like the `document.cookie` mock of the handler's tests (store,
    overwrite, delete on a pre-1971 expiry, getter joining `name=value` rows with `"; "`).
  - A `localStorage` area.
  - Either store can be `blocked`, which means every access to it throws.
- `Storage`: the `StorageHandler` class. It holds the key `web_experiment_<id>` and the backend, and
  provides get/set/clear of one variant id, with the cookie round trip proved through the jar's
  text. Each handler keeps a ghost record of the calls made on it, and `Replay` gives the state
  that a run of calls leaves behind.
- `Variant`: the `WebExperimentVariant` element, i.e. its id and weight getters and its `hidden`
  flag.
- `Events`: the `VariantAssignedEvent` payload record and its three triggers.
- `WeightedSelection`: the weighted draw.
  - Eligible (positive-weight) children, in document order, partition `[0, total)` into buckets.
    The draw `r * total` picks the bucket holding it.
  - A loop method computes it. A recursive walk specifies it.
- `Policy`: the three-tier decision as a pure function. It returns the outcome, the storage calls
  it makes and the messages it logs.
- `Experiment`: the `WebExperiment` controller class and the page's `Window` globals. Its
  `ConnectedCallback` runs the policy on a real `StorageHandler`, updates the children, records
  the event and calls the analytics hooks.

The controller's implementation (`lib/web-experiment.js`) is not part of this model's sources.
Its behaviour is modelled from what `lib/web-experiment.test.js` asserts.

The controller's dependencies are passed in as parameters:
- The value of `Math.random()` is a parameter `r`.
- The clock is a parameter `now`, in milliseconds since the epoch.
- The handler the controller would construct is passed in; `null` stands for a constructor that
  threw.
- `window.gtag` and `window.dataLayer` are optional fields of `Window`, each recording the calls
  it received.

## Model

| member | source | states |
|---|---|---|
| Storage.ResolveStorageType | lib/storage-handler.js:48-53 | the backend is local storage exactly when `'local'` is requested; anything else, including nothing, gives cookies |
| Storage.StorageKey | lib/storage-handler.js:55 | the key starts with `web_experiment_` and the rest of it is the experiment id |
| Storage.StorageKeyInjective | lib/storage-handler.js:55 | two experiments with the same key have the same id |
| Storage.ValidCookieNameOfKey | lib/storage-handler.js:55 | the key survives as a cookie name exactly when the id has no `;` or `=` and does not end in whitespace |
| Storage.NewStorageHandler | lib/storage-handler.js:48-55 | construction fails, with the documented message, exactly when the id is missing or empty; otherwise the handler has the resolved backend and the key `web_experiment_<id>` |
| Storage.StorageHandler.constructor | lib/storage-handler.js:48-55 | a constructed handler is valid, with the resolved backend and the given id |
| Storage.FindRow | lib/storage-handler.js:71 | a found row starts with `key=`, is one of the rows, and no earlier row starts with `key=`: the first match; nothing is found exactly when no row starts with `key=` |
| Storage.CookieValue | lib/storage-handler.js:70-73 | nothing exactly when no row of the cookie string starts with `key=`; otherwise the second `=`-piece of the first such row, which always exists |
| Storage.CookieValueLookup | lib/storage-handler.js:70-73 | splitting the jar's cookie text on `"; "`, finding the `key=` row and taking `split('=')[1]` yields exactly the value the jar holds under `key` |
| Storage.RowMatches | lib/storage-handler.js:71 | a jar row `name=value` starts with `key=` exactly when its name is `key` |
| Storage.EncodedIsCookieSafe | lib/storage-handler.js:96 | an encoded id contains no `;`, `=` or surrounding whitespace, and is empty only for the empty id |
| Storage.AssignStores | lib/storage-handler.js:105 | writing `key=value` with a future expiry stores `value` under `key` and changes nothing else |
| Storage.AssignEpochRemoves | lib/storage-handler.js:123 | writing `key=` with the epoch expiry deletes `key` and nothing else |
| Storage.AssignDeletes | lib/storage-handler.js:123 | after writing `key=` with the epoch expiry, nothing is stored under `key`, whatever the key |
| Storage.CookieRoundTrip | lib/storage-handler.js:70-105 | set then get through the cookie text yields the encoded id, and decoding it gives back the id |
| Storage.CookieClearRoundTrip | lib/storage-handler.js:116-123 | clear then get through the cookie text finds no row for the key |
| Storage.EqualsInExperimentId | lib/storage-handler.js:55-105 | for an experiment id `a=b`, a set overwrites experiment `a`'s cookie with `b`, and a get of the handler's own key finds nothing |
| Storage.StorageHandler.GetAssignedVariant | lib/storage-handler.js:64-81 | records one read and changes no store; local: the item under the key; cookie: the cookie string split on `"; "`, the first `key=` row, its `split('=')[1]`, decoded, which is the decoded jar entry for the key; None when the store is blocked, nothing is stored or the text does not decode |
| Storage.StorageHandler.SetAssignedVariant | lib/storage-handler.js:89-110 | records one write; a missing or empty id changes nothing; otherwise exactly the chosen backend is written (setItem, or a cookie expiring 365 days after `now`), unless it is blocked; a following get returns the id; when the key is a valid cookie name no other cookie changes |
| Storage.StorageHandler.ClearAssignedVariant | lib/storage-handler.js:116-128 | records one clear; the chosen backend loses the key (removeItem, or the epoch-dated cookie), unless it is blocked; a following get returns None; when the key is a valid cookie name no other cookie changes |
| Storage.StorageHandler.AfterSet | lib/storage-handler.js:89-110 | a missing or empty id or a blocked backend leaves the state alone; a local write leaves the jar alone and a cookie write leaves local storage alone |
| Storage.StorageHandler.AfterClear | lib/storage-handler.js:116-128 | a blocked backend leaves the state alone; a local clear leaves the jar alone and a cookie clear leaves local storage alone |
| Storage.StorageHandler.SetThenGet | lib/storage-handler.js:64-105 | in any well-formed state, a non-empty id set under a key that reads back is what a get then returns, or None when the backend is blocked |
| Storage.StorageHandler.ClearThenGet | lib/storage-handler.js:64-123 | in any well-formed state, a get after a clear returns None, whatever the key |
| Storage.StorageHandler.StepsWellFormed | lib/storage-handler.test.js:25-48 | a set or a clear through the handler keeps the jar well formed |
| Storage.StorageHandler.SetFrame | lib/storage-handler.js:105 | when the key is a valid cookie name, a set changes no other cookie |
| Storage.StorageHandler.ClearFrame | lib/storage-handler.js:123 | when the key is a valid cookie name, a clear changes no other cookie |
| Storage.StorageHandler.ReplayAppend | lib/storage-handler.js:64-128 | replaying one more call is one more step of the handler |
| Storage.StorageHandler.ReplayConcat | lib/storage-handler.js:64-128 | replaying two runs of calls one after the other is replaying them together |
| Storage.StorageHandler.ReplayPrefix | lib/storage-handler.js:64-128 | a read leaves the stores alone; a read then a clear is one clear |
| Storage.StorageHandler.ReplayReadsOnly | lib/storage-handler.js:64-81 | calls with no clear and no write leave the stores as they were |
| Storage.CookieNameOfHead | lib/storage-handler.test.js:25-43 | for a valid cookie name, the mock setter files `key=value` under `key` |
| BrowserStorage.Lookup | lib/storage-handler.test.js:17-23 | a name has a value exactly when some entry carries it |
| BrowserStorage.Put | lib/storage-handler.test.js:42 | the name then holds the value, and the jar grows by one entry exactly when the name was absent |
| BrowserStorage.Remove | lib/storage-handler.test.js:40 | the name is then absent, the jar does not grow, and deleting an absent name changes nothing |
| BrowserStorage.PutFrame | lib/storage-handler.test.js:42 | storing a name leaves every other name as it was |
| BrowserStorage.RemoveFrame | lib/storage-handler.test.js:40-46 | deleting a name leaves every other name as it was |
| BrowserStorage.PutLookup | lib/storage-handler.test.js:42 | after storing `name`, reading `name` gives the new value and every other name reads as before |
| BrowserStorage.RemoveLookup | lib/storage-handler.test.js:39-46 | after deleting `name`, it reads as absent and every other name reads as before |
| BrowserStorage.PutEntries | lib/storage-handler.test.js:42 | storing keeps every entry with another name and adds only the stored pair |
| BrowserStorage.RemoveEntries | lib/storage-handler.test.js:39-46 | deleting keeps exactly the entries with another name |
| BrowserStorage.PutWellFormed | lib/storage-handler.test.js:42 | storing a clean trimmed name keeps names distinct and clean |
| BrowserStorage.RemoveWellFormed | lib/storage-handler.test.js:39-46 | deleting keeps names distinct and clean |
| BrowserStorage.AssignWellFormed | lib/storage-handler.test.js:25-48 | any assignment to the mock jar keeps its names distinct, clean and trimmed |
| BrowserStorage.LookupImpossibleName | lib/storage-handler.test.js:26-42 | a name with `;` or `=` or surrounding whitespace is never stored |
| BrowserStorage.Rows | lib/storage-handler.test.js:21-22 | one `name=value` row per entry, in order |
| BrowserStorage.CookieString | lib/storage-handler.test.js:20-24 | an empty jar reads as the empty string; splitting a well-formed jar's text on `"; "` gives back its rows |
| BrowserStorage.AssignCookie | lib/storage-handler.test.js:25-48 | an assignment changes at most the cookie named by the trimmed text before its first `=` |
| BrowserStorage.CookieJar.Assign | lib/storage-handler.test.js:25-48 | the jar becomes the mock setter's result and stays well formed |
| BrowserStorage.LocalStore.GetItem | lib/storage-handler.test.js:8 | the stored string when the key is present, otherwise None |
| BrowserStorage.LocalStore.SetItem | lib/storage-handler.test.js:9 | the key now maps to the value; other keys are unchanged |
| BrowserStorage.LocalStore.RemoveItem | lib/storage-handler.test.js:10 | the key is gone; other keys are unchanged |
| Strings.JoinSplit | lib/storage-handler.js:70 | joining a split with its separator gives back the string |
| Strings.Split | lib/storage-handler.js:70 | a split always has at least one piece |
| Strings.Join | lib/storage-handler.test.js:21-23 | joining no pieces gives the empty string and one piece gives that piece |
| Strings.SplitJoin | lib/storage-handler.js:70 | splitting a join of separator-free parts gives back the parts |
| Strings.SplitAtFirst | lib/storage-handler.js:73 | splitting `a + sep + b` gives `a`, then the split of `b` |
| Strings.SplitPieces | lib/storage-handler.test.js:26-27 | no split piece contains the separator, and every piece's characters come from the input |
| Strings.TrimSpec | lib/storage-handler.test.js:40-42 | a trim has no leading or trailing whitespace, adds no characters, and leaves a trimmed string alone |
| Strings.Trim | lib/storage-handler.test.js:40-42 | a trim has no space at either end, is no longer than its input, and leaves a trimmed string alone |
| UriComponent.DecodeEncode | lib/storage-handler.js:73 | `decodeURIComponent(encodeURIComponent(s))` is `s` for every well-formed string (no lone surrogates) |
| UriComponent.Encode | lib/storage-handler.js:96 | each character becomes between one and twelve characters |
| UriComponent.Decode | lib/storage-handler.js:73 | a decoding is never longer than its input, and text without `%` decodes to itself |
| UriComponent.DecodeEscape | lib/storage-handler.js:73 | an escape sequence that decodes takes between 3 and the remaining characters |
| UriComponent.Utf8 | lib/storage-handler.js:96 | a code point becomes one to four octets, each below 256 |
| UriComponent.EncodeAlphabet | lib/storage-handler.js:96 | an encoding contains only unreserved characters and `%` |
| UriComponent.EncodeEmpty | lib/storage-handler.js:92-96 | the encoding is empty exactly when the input is |
| UriComponent.EncodeExamples | lib/storage-handler.test.js:137-142 | space, `/`, `?` and `&` are percent-encoded as `%20`, `%2F`, `%3F` and `%26` |
| UriComponent.HexRoundTrip | lib/storage-handler.js:73 | the hexadecimal digit written for an octet half reads back as that value |
| Variant.WebExperimentVariant.constructor | lib/web-experiment-variant.js:23-28 | a new variant is hidden |
| Variant.WebExperimentVariant.ConnectedCallback | lib/web-experiment-variant.js:33-37 | connecting hides the variant again |
| Variant.EffectiveId | lib/web-experiment-variant.js:43-45 | the id is the `variant-id` attribute when present; it is empty exactly when the attribute is missing or empty |
| Variant.EffectiveWeight | lib/web-experiment-variant.js:52-59 | the weight is never negative; a non-negative parse is returned unchanged; NaN or a negative parse gives the default 0 |
| Variant.WebExperimentVariant.VariantId | lib/web-experiment-variant.js:43-45 | the `variant-id` attribute when present; empty exactly when the attribute is missing or empty |
| Variant.WebExperimentVariant.Weight | lib/web-experiment-variant.js:52-59 | never negative; a non-negative parse is returned unchanged; NaN or a negative parse gives the default 0 |
| Variant.WeightExamples | lib/web-experiment-variant.js:52-59 | `50`, `0` and `3.14` are kept; an invalid, negative or missing weight gives 0 |
| Variant.WebExperimentVariant.Show | lib/web-experiment-variant.js:64-67 | the variant is no longer hidden |
| Variant.WebExperimentVariant.Hide | lib/web-experiment-variant.js:72-75 | the variant is hidden |
| Events.NewVariantAssignedEvent | lib/variant-assigned-event.js:51-63 | the event has the fixed type, bubbles, is composed, and carries the given experiment id, variant id and trigger |
| Events.TriggerName | lib/variant-assigned-event.js:35-43 | a trigger is written as `pre-selected`, `load` or `select` |
| Events.ParseTrigger | lib/variant-assigned-event.js:35-43 | exactly those three strings name a trigger, and each names the trigger it parses to |
| Events.TriggerRoundTrip | lib/variant-assigned-event.js:35-43 | each trigger's string reads back as that trigger |
| WeightedSelection.WeightedSelect | lib/web-experiment.test.js:232-259 | the loop's result is the cumulative walk's pick for the draw scaled by the total eligible weight |
| WeightedSelection.PickFromSpec | lib/web-experiment.test.js:232-259 | the walk finds nothing exactly when the target is at or past the total; otherwise it finds an eligible entry whose bucket holds the target |
| WeightedSelection.PickBucket | lib/web-experiment.test.js:232-259 | an entry is picked exactly when the target lies in its bucket, and the bucket is as wide as its eligible weight |
| WeightedSelection.BucketsDisjoint | lib/web-experiment.test.js:232-259 | no target lies in two buckets |
| WeightedSelection.DrawPicks | lib/web-experiment.test.js:232-274 | a draw in `[0, 1)` picks an eligible entry, in the bucket holding it, exactly when some weight is positive |
| WeightedSelection.FiftyFifty | lib/web-experiment.test.js:236-247 | with weights 50/50, a draw of 0.1 picks the first and 0.6 the second |
| WeightedSelection.BoundaryGoesToNext | lib/web-experiment.test.js:232-259 | a target exactly at the end of a bucket picks the next one |
| WeightedSelection.SumMonotone | lib/web-experiment.test.js:232-259 | running sums of eligible weights never decrease |
| Policy.SelectedSpec | lib/web-experiment.test.js:180-200 | the `selected` children, listed in increasing document order, all of them and only them |
| Policy.SelectedFromSpec | lib/web-experiment.test.js:180-200 | the filter from a position on keeps exactly the `selected` children there, in increasing order, and is empty exactly when none is selected |
| Policy.IndexOfId | lib/web-experiment.test.js:202-230 | the first child carrying the id, or None exactly when no child carries it |
| Policy.Resolve | lib/web-experiment.test.js:180-313 | a chosen index is a child; storage is written and cleared at most once each; a write happens exactly when a child is picked by the draw |
| Policy.ResolveCalls | lib/web-experiment.test.js:180-313 | the handler is constructed first and once, and only when no child is `selected`; after a failed construction nothing else is called; a working handler is read before anything else |
| Policy.TierTwoCalls | lib/web-experiment.test.js:213-259 | with nothing selected and no child carrying the stored id: a read, a clear exactly when an id was stored, then one write of the picked id exactly when the draw picks a child, with trigger `select` |
| Policy.NoDrawOutsideTierTwo | lib/web-experiment.test.js:180-211 | a pre-selection or a stored id a child carries assigns a child without any clear and without trigger `select` |
| Policy.Fresh | lib/web-experiment.test.js:232-274 | a draw's pick has positive weight, is written once, and carries trigger `select`; nothing picked means nothing written |
| Policy.PreSelectionWins | lib/web-experiment.test.js:180-200 | the first `selected` child is assigned with trigger `pre-selected`; storage is not touched; a warning is logged exactly when a later child is `selected` too |
| Policy.PreSelectionIgnoresStorage | lib/web-experiment.test.js:180-189 | with a `selected` child the decision depends neither on storage nor on the draw |
| Policy.StorageFailureStops | lib/web-experiment.test.js:283-313 | when the handler cannot be constructed, nothing is assigned, nothing is read or written, and an error is logged |
| Policy.StoredIdLoads | lib/web-experiment.test.js:202-211 | a stored id carried by a child assigns it with trigger `load`; storage is read once and never written |
| Policy.StaleIdCleared | lib/web-experiment.test.js:213-230 | a stored id no child carries is cleared once and reported; the decision is then the one taken with nothing stored |
| Policy.FreshDrawWrites | lib/web-experiment.test.js:232-259 | with nothing usable stored and a positive weight, the child in the bucket holding the draw is assigned with trigger `select` and written exactly once |
| Policy.NothingEligible | lib/web-experiment.test.js:261-274 | with no positive weight nothing is assigned, nothing written, and a warning is logged |
| Policy.Scenarios | lib/web-experiment.test.js:202-259 | children A and B at 50/50: draw 0.1 gives A and 0.6 gives B, each written; stored B loads B; stored X is cleared and A written |
| Experiment.ExpVariantString | lib/web-experiment.test.js:371-392 | the payload is `web-experiment-`, then the experiment id, then `-`, then the variant id, and nothing else |
| Experiment.ExpVariantStringInjective | lib/web-experiment.test.js:366-393 | within one experiment, different variants give different payloads |
| Experiment.ExpVariantStringExample | lib/web-experiment.test.js:371-373 | experiment `ga-exp` with variant `A` gives `web-experiment-ga-exp-A` |
| Experiment.AnalyticsWarnings | lib/web-experiment.test.js:376-401 | a warning for gtag exactly when it is enabled but absent, and for the data layer likewise |
| Experiment.WebExperiment.DebugMode | lib/web-experiment.test.js:145-158 | debug mode is on exactly when the attribute or the page-wide flag is set |
| Experiment.WebExperiment.Descriptors | lib/web-experiment.test.js:180-313 | one descriptor per child, with its id, weight and `selected` flag |
| Experiment.TierTwoReplay | lib/web-experiment.test.js:213-259 | after tier two's calls the stores hold: the cleared state when an id was stored, then the picked id written, when one is picked |
| Experiment.TierTwoRan | lib/web-experiment.test.js:213-259 | a read, a clear when an id was stored and a write of the pick, made in that order on the handler, are exactly the decision's calls and leave the stores as their replay |
| Experiment.RanReadsOnly | lib/web-experiment.test.js:202-211 | a decision made on the handler that neither clears nor writes leaves the stores as they were |
| Experiment.ReplayReadsBack | lib/web-experiment.test.js:213-259 | once the decision's calls are made, storage reads nothing after a clear that no write followed, and the picked id after a fresh draw, when the key reads back and the id is non-empty |
| Experiment.DrawAndWrite | lib/web-experiment.test.js:232-274 | the draw's decision; a pick is written to the handler exactly once and the stores hold that write; no pick means no call and unchanged stores |
| Experiment.LoadOrDraw | lib/web-experiment.test.js:202-274 | the tier-two decision for what storage held, with exactly its calls made on the handler in order and the stores left as they leave them |
| Experiment.RunPolicy | lib/web-experiment.test.js:180-313 | the decision is the policy's for what storage held; the handler receives exactly the decision's calls after its construction, in order, and its stores hold what those calls leave; a decision that neither clears nor writes leaves the stores untouched |
| Experiment.RecordedCalls | lib/web-experiment.test.js:180-313 | the handler's construction, when the decision needs one, followed by the calls the handler received, is exactly the decision's list of calls |
| Experiment.WebExperiment.ApplyVisibility | lib/web-experiment.test.js:184-227 | the chosen child is shown and every other child is hidden |
| Experiment.WebExperiment.ReportAnalytics | lib/web-experiment.test.js:366-401 | each enabled hook present on the page receives exactly one impression naming the experiment and variant; each enabled hook that is absent adds a warning |
| Experiment.WebExperiment.Apply | lib/web-experiment.test.js:180-401 | the element becomes initialised, shows exactly the assigned child, and records the assignment with one event and the impression reports; with nothing assigned, every child is hidden and nothing is dispatched |
| Experiment.WebExperiment.Decide | lib/web-experiment.test.js:180-313 | the policy's decision for what storage held; the element records exactly its calls, and the handler received them in order |
| Experiment.WebExperiment.Initialize | lib/web-experiment.test.js:180-401 | the first initialisation applies the policy's decision for what storage held; the element records exactly the decision's storage calls; the handler received exactly those calls, in order, and its stores hold what they leave |
| Experiment.WebExperiment.constructor | lib/web-experiment.test.js:140-172 | a new element has nothing assigned, nothing dispatched and nothing logged; it keeps the `experiment-id` attribute, and the `debug-mode`, `gtag` and `gtm` attributes as the flags behind the debug, Google Analytics and Google Tag Manager getters |
| Experiment.WebExperiment.ConnectedCallback | lib/web-experiment.test.js:127-439 | reconnection changes nothing but a debug message, and makes no storage call; a missing id logs an error and leaves the element uninitialised; no children logs a warning; otherwise the decision is applied, with exactly its storage calls made on the handler, in order, and the stores left as those calls leave them |

## Left out

- Custom-element machinery. `HTMLElement` and `Event` inheritance, `customElements.define`,
  attribute observation and real event dispatch and bubbling are not modelled. Attributes are
  constructor parameters. A dispatched event is recorded in the controller's `dispatched` field.
- Cookie attributes and dates. The expiry `Date` arithmetic and `toUTCString` become an integer
  number of milliseconds. The mock's "before 1971" test is `expiresMs < 31536000000`. The epoch
  date the handler writes to delete is 0. `path=/` and `SameSite=Lax` are not represented.
  The mock's two deletion rules are approximated by the handler's own expiry. It deletes a
  valued head when any `;`-piece is an `expires=` attribute dated before 1971. It deletes a
  value-less head when the whole string contains the literal epoch date. `AssignCookie` looks
  only at `expiresMs`, with 0 standing for that literal. The two differ only for an experiment id
  that itself contains `;expires=…` text. For such ids the new states that
  `Storage.StorageHandler.SetAssignedVariant` and `ClearAssignedVariant` give are those of this
  approximation.
- `parseFloat` and JavaScript number semantics. A variant carries the parse of its `weight`
  attribute as `Option<real>`, where `None` is NaN. Weights are exact reals, with no floating-point
  rounding.
- Randomness. `Math.random()` is a parameter `r`, and only `0 <= r < 1` is assumed where the
  proofs need it. The claim that picks follow the weights' proportions is not a property of one
  run and is not modelled.
- Console output. Messages are recorded as their kind (`Error`, `Warn` or `Debug`) with a
  `Message` tag. The handler's own `console.error` on a storage failure is not recorded. The
  failure itself is modelled as a `blocked` store whose accesses have no effect.
- Local storage and empty strings. The `localStorage` mock's `getItem` turns a stored empty string
  into null; `LocalStore.GetItem` returns it as it is. The handler never stores an empty string,
  so the two do not differ on any state the handler can reach.
- `setItem` and strings. The mock's `value.toString()` is the identity on strings; the handler
  only passes strings.
- `UriComponent.DecodeEncode`: strings are sequences of Unicode scalar values, so a JavaScript
  string with a lone surrogate (such as `"\uD800"`) cannot be expressed, and the round trip is
  stated for well-formed strings only. On such an id `encodeURIComponent` throws a URIError,
  which `setAssignedVariant` catches before it writes anything, so that id stores nothing in
  either backend. This path is not modelled.
- `Storage.StorageHandler.SetAssignedVariant`: for cookies the read-back is stated only when the
  key is a valid cookie name (`Storage.ValidCookieName`). With `=` in the experiment id, the mock
  jar files the cookie under the part of the key before that `=`; `Storage.EqualsInExperimentId`
  shows this for an id `a=b`. With `;` in the id, the text before the `;` has no `=`, so the mock
  stores nothing. Trailing whitespace in the id is trimmed off the name the cookie is filed under.
- `Storage.StorageHandler.ClearAssignedVariant`: "no other cookie changes" is stated only when the
  key is a valid cookie name. Clearing the id `a=b` writes `web_experiment_a=b=` with the epoch
  date, which deletes the cookie `web_experiment_a`. Clearing the id `a;b` writes a head without
  `=` but with the epoch date, which deletes `web_experiment_a` too. The exact new state is still
  given, as `AfterClear` of the old one, under the expiry approximation described above.
- `BrowserStorage.Put`: a new name is appended after the existing ones. `Object.entries` lists
  integer-like names (such as `1`) first, in numeric order, so the getter's row order differs for
  such names. No handler key is integer-like, since every key starts with `web_experiment_`.
- `Variant.WebExperimentVariant.ConnectedCallback`: reconnecting the controller does not
  re-run its decision, but each child reconnected with it runs its own callback and hides
  itself, the assigned child included. The model states each callback on its own; re-attaching
  a whole subtree, and the order in which the browser calls the callbacks, are not modelled.
- `Experiment.ReplayReadsBack`: storage is stated to read the picked id back after a fresh draw only
  when the key is usable as above and the id is non-empty. An empty `variant-id` is never written,
  as in `setAssignedVariant`.
- The controller implementation. `lib/web-experiment.js` is not part of this model, so
  `Experiment.WebExperiment` follows what its tests assert. The following are choices the tests
  leave open:
  - Visibility is applied by position: only the assigned child is shown, even when another child
    carries the same id.
  - A missing experiment id leaves the element uninitialised.
  - The reconnection message is logged only in debug mode.
  - Debug-level messages other than the reconnection one are not modelled. The log of a first
    initialisation is stated exactly, as the policy's errors and warnings followed by the
    analytics warnings. In debug mode the controller may log further debug detail while
    initialising.
  - A stored empty string counts as a stored id. It loads a child whose `variant-id` is missing or
    empty, and otherwise it is cleared as stale. A controller that tested the stored value for
    truthiness, as `setAssignedVariant` tests its argument, would treat it as nothing stored.
    The handler never writes an empty string, so the difference arises only for a value placed
    in storage by other code.
  - The order of the analytics calls relative to the event is not recorded.
- Two elements sharing one experiment id and racing on the same storage key are not modelled.
  This is interleaving between instances, not sequential logic.
- Test-harness mechanics are not modelled: stubs, replacement of the global `StorageHandler`,
  and asynchronous waits.
