# Reconciliation bridge: a Dafny model

This project models the field-inspection reconciliation bridge in `index.js`. The bridge subscribes to two MQTT streams:

- a **readings** topic, which carries the reading batch of an inspection;
- a family of **photo** topics `.../fotos/<id>`, each carrying the base64 photo of one reading.

Every accepted message re-arms a 2000 ms debounce timer. When the timer fires, the bridge runs a **reconciliation pass** (`processarConciliacao`):

- It walks every category of the batch's `Campo` and maps each reading in place.
- A reading whose photo is pending has that photo written to `<point code> - <id>.jpg` in the storage directory. On success the photo leaves the pending map.
- The reading's `observacao` becomes the record `{comentario, url}`. The comment is normalised to null when it is missing or blank.
- The transformed batch is posted to a webhook and cleared only if the post succeeds.

The model has five modules:

- `Options`: the `Option` type.
- `Text`: the JavaScript string operations the pass relies on:
  - `String.prototype.trim`, with the JavaScript white-space and line-terminator set;
  - `split(' - ')[0]`, as `Before`;
  - `split('/').pop()`, as `LastSegment`;
  - `startsWith`.
- `Debounce`: the timer as a state machine on a logical clock, `Idle | Armed(deadline)`, with a trace semantics `Passes` that says which passes a sequence of message arrival times produces.
- `Reconciliation`: the pure model of the pass.
  - Values: parsed JSON values, readings, categories and the batch document.
  - Comment normalisation and point-code / file-name derivation.
  - Photo resolution for one reading.
  - The specification functions `MapReadings`, `MapCategory`, `MapCampo` and `Pass`, which thread the photo map through the readings left to right.
  - The lemmas about them.
- `Bridge`: the module state as a class `Bridge`, holding `batch` (`bufferLeituras`), `photos` (`bufferFotos`) and `timer` (`timeoutHandle`).
  - Inbound classification: `Classify`.
  - Methods: the message handler `OnMessage`, `RestartTimer` (`reiniciarTimeout`), and `Reconcile` / `Fire` (`processarConciliacao` and the timer callback).
  - Each method is proved against the `Reconciliation` specification functions. Its in-place loops (`forEach` over categories, `map` over readings) carry invariants that tie the partial state to those functions.

The outside world enters as parameters:

- the storage directory `dir`;
- the file-write outcome, an oracle `write(path, data)`;
- the webhook outcome, a boolean `postOk`;
- the clock, `now`.

Three behaviours of the code are worth stating:

- After a failed webhook post, the batch is **kept**, already transformed. It is not dropped (`index.js:103-109`).
- After a failed photo write, the pending photo is **kept** (`index.js:79-85`).
- A kept batch is mapped again by the next pass, unless a message on the readings topic replaces it first (`index.js:39`). The next pass can be triggered by a photo message (`index.js:42-45, 69, 90`). On that pass, `observacao` is already the record the first pass wrote, so the new `comentario` is that whole record. A reading whose photo was stored the first time gets `url: null`, because its entry is gone, unless a new photo for the same id arrived in between (`Reconciliation.RepassNestsRecord`).

## Model

| member | source | states |
|---|---|---|
| Text.TrimStart | index.js:75 | the leading half of `trim()`; its contract is stated by `TrimStartSpec` |
| Text.TrimEnd | index.js:75 | the trailing half of `trim()`; its contract is stated by `TrimEndSpec` |
| Text.Trim | index.js:90 | `String.prototype.trim`; its contract is stated by `TrimSpec` and `TrimmedSliceUnique` |
| Text.TrimStartSpec | index.js:75 | the leading trim drops exactly a maximal run of JavaScript white space from the front and keeps the rest as a suffix |
| Text.TrimEndSpec | index.js:75 | the trailing trim drops exactly a maximal run of white space from the back and keeps the rest as a prefix |
| Text.TrimSpec | index.js:90 | `trim()` yields the slice of the input that remains after cutting white space off both ends: everything cut is white space, the slice neither starts nor ends with white space, and it is empty exactly when the input is all white space |
| Text.TrimmedSliceUnique | index.js:90 | those facts admit only one slice, so they determine `trim()` |
| Text.Before | index.js:75 | `split(' - ')[0]`; its contract is stated by `BeforeSpec` and `FirstSplitUnique` |
| Text.BeforePrefix | index.js:75 | `split(sep)[0]` is a prefix of the input |
| Text.BeforeFollowed | index.js:75 | unless it is the whole input, `split(sep)[0]` is followed by `sep` |
| Text.BeforeFirst | index.js:75 | `sep` occurs nowhere before the end of `split(sep)[0]`, so the cut is at the first occurrence |
| Text.BeforeSpec | index.js:75 | `split(sep)[0]` is the prefix up to the first occurrence of `sep`, or the whole string when there is none |
| Text.FirstSplitUnique | index.js:75 | only one prefix has those properties, so they determine `split(sep)[0]` |
| Text.LastSegment | index.js:43 | `split('/').pop()`; its contract is stated by `LastSegmentSpec` |
| Text.StartsWith | index.js:42 | `startsWith`; used in `Classify`'s postcondition for the photo branch |
| Text.LastSegmentSpec | index.js:43 | `split('/').pop()` is a '/'-free suffix of the topic, preceded by a '/' unless it is the whole topic |
| Debounce.Restart | index.js:56 | `setTimeout(processarConciliacao, 2000)`: a timer armed one quiet period ahead; used in `RestartTimer`'s postcondition and in `Passes` |
| Debounce.Due | index.js:56 | the timer callback may run: a timer is armed and its deadline has come; the precondition of `Fire`, characterised through `Passes` and `TimerTrace` |
| Debounce.Passes | index.js:54-57 | the timer driven by a sequence of arrivals: a pending timer fires before the next arrival when its deadline comes first; there are never more passes than timers armed |
| Debounce.QuietEnds | index.js:54-57 | the reference description of debouncing: at most one pass per message, and the last message is always followed by a pass one quiet period later |
| Debounce.PassesAreQuietEnds | index.js:54-57 | after the first message, the passes a sequence of arrivals produces are exactly the arrivals followed by a 2000 ms silence, each at arrival + 2000 |
| Debounce.PassesFromIdle | index.js:54-57 | starting with no timer armed, the passes are exactly the quiet ends of the arrival sequence |
| Debounce.BurstYieldsOnePass | index.js:54-57 | a burst of messages, each within 2000 ms of the previous, yields a single pass, 2000 ms after the last message |
| Debounce.PassFollowsSilence | index.js:54-57 | every pass happens 2000 ms after some message whose next message, if any, came at least 2000 ms later |
| Debounce.QuietArrivalPasses | index.js:54-57 | conversely, every message whose next message, if any, comes at least 2000 ms later is followed by a pass 2000 ms after it |
| Reconciliation.PhotoKey | index.js:73 | the key `bufferFotos.has(leitura.id)` can match: only a string `id`, since the photo map's keys are strings; used by `ReadingsPhotos`, `OrphansKept` and `DistinctResolution` |
| Reconciliation.HasPhoto | index.js:73 | `bufferFotos.has(leitura.id)`; used by `ReadingsPhotos` and `CampoPhotos` |
| Reconciliation.NormalizeComment | index.js:90 | the comment normalisation; its contract is stated by `NormalizeCommentSpec` |
| Reconciliation.NormalizeCommentSpec | index.js:90 | `comentario` is null exactly when `observacao` is missing, null, falsy or blank after trim; otherwise it is the original value verbatim |
| Reconciliation.PointCode | index.js:75 | the point-code derivation; its contract is stated by `PointCodeSpec` |
| Reconciliation.PointCodeSpec | index.js:75 | the point code is the text of `poco` before its first " - " (all of it if there is none) with white space cut off both ends: what is cut is white space, what is kept has none at either edge, and it is empty exactly when that text is blank |
| Reconciliation.PhotoPath | index.js:76-77 | the file path `<dir>/<point code> - <id>.jpg`; the url `ReadingsPhotos`, `DistinctResolution` and `ExampleReading` establish |
| Reconciliation.RowsReadyShrinks | index.js:73-75 | a reading that can run without throwing keeps that property after photo entries are removed |
| Reconciliation.ResolvePhoto | index.js:73-86 | photo resolution for one reading, against the map the earlier readings left; characterised by `ReadingsPhotos`, `OrphansKept`, `DistinctResolution` and `CampoDistinctResolution` |
| Reconciliation.Transform | index.js:88-98 | the reading rewrite; its contract is stated by `TransformSpec` |
| Reconciliation.TransformSpec | index.js:95-98 | the rewritten reading has the input's properties plus `observacao`, all others with their values, and `observacao` records the normalised comment and the url |
| Reconciliation.MapReadings | index.js:69-99 | one category's `map` keeps the length, and the photo map only loses entries |
| Reconciliation.MapCategory | index.js:68-100 | a category keeps its key; a falsy one is untouched; the photo map only loses entries |
| Reconciliation.MapCampo | index.js:64-101 | the `forEach` over categories keeps their number, and the photo map only loses entries |
| Reconciliation.MapCampoSnoc | index.js:67-101 | mapping one more category extends the pass over the shorter prefix, and that category can still run without throwing |
| Reconciliation.CampoProgressStep | index.js:67-101 | one `forEach` iteration moves the in-place state from "first i categories mapped" to "first i+1 mapped" |
| Reconciliation.CampoProgressDone | index.js:67-101 | when every category has been visited, the in-place state is the full pass |
| Reconciliation.Pass | index.js:64-101 | a pass keeps every property of the document other than `Campo`, and the number of categories |
| Reconciliation.ReadingsShape | index.js:69-99 | each category keeps its length and order; every output reading equals its input on every property but `observacao`, which is `{comentario: normalised comment, url}` |
| Reconciliation.ReadingsPhotos | index.js:69-86 | within a category, every non-null url is the file path of a reading whose photo was pending and whose write succeeded, and whose entry is gone; every entry removed was consumed by a reading with that id that got a url |
| Reconciliation.OrphansKept | index.js:73-86 | a pending photo whose id no reading carries is left in the map, unchanged |
| Reconciliation.DistinctResolution | index.js:69-86 | with distinct ids, each reading's url is what it gets when resolved alone, and an entry leaves the map exactly when its own reading's write succeeded, so one failed write does not affect the other readings |
| Reconciliation.CampoShape | index.js:64-101 | the whole pass keeps the category keys and their order, leaves falsy categories untouched and shapes every array category as above |
| Reconciliation.CampoPhotos | index.js:67-101 | over the whole batch, every url is justified against the map at the start of the pass, and every removed entry was consumed by some reading in some category |
| Reconciliation.CampoOrphansKept | index.js:67-101 | a pending photo whose id no reading of the batch carries survives the pass, unchanged |
| Reconciliation.AllRowsReady | index.js:64-101 | every reading of a batch that can be reconciled can run without throwing |
| Reconciliation.MapReadingsAppend | index.js:69-99 | mapping two runs of readings in one go is mapping the first, then the second against the photo map the first left |
| Reconciliation.CampoFlatten | index.js:64-101 | the pass over the categories is the pass over all the batch's readings in category-key order: same output readings, same final photo map |
| Reconciliation.CampoDistinctResolution | index.js:64-101 | when no two readings of the whole batch share an id, each reading's url is what resolving it alone against the map at the start of the pass yields, so a pending photo with a successful write always gives its file path; an entry leaves the map exactly when its reading's write succeeded |
| Reconciliation.KeylessCampoPass | index.js:64-67 | a batch whose `Campo` has no keys (an empty object, a number, a boolean, `""`) passes unchanged and leaves the photo map as it was |
| Reconciliation.NullPhotoStays | index.js:79-85 | a photo entry stored as null is never consumed when writing null always fails, as `Buffer.from(undefined, 'base64')` throws inside the `try` |
| Reconciliation.RepassNestsRecord | index.js:69-98 | mapping an already transformed reading again nests the first record as the new `comentario`; a reading whose photo entry is gone gets a null url |
| Reconciliation.ExamplePointCode | index.js:75 | the point code of "P1 - x" is "P1" |
| Reconciliation.ExampleReading | index.js:73-92 | reading "5" at "P1 - x" with an empty comment and a writable photo gets url `dir/P1 - 5.jpg` and a null comment; only entry "5" leaves the map |
| Bridge.FotoOf | index.js:44 | `payload.fotoBase64`, with `undefined` as null; used in `Classify`'s postcondition for the stored photo |
| Bridge.PhotoIdSpec | index.js:42-43 | the id taken from a photo topic is its last '/'-free segment, at or after the end of the prefix |
| Bridge.Classify | index.js:35-50 | unparsable JSON is ignored; the readings topic yields a new batch, null when the payload is falsy; a `.../fotos/` topic with a non-null payload yields a photo under the topic's last segment carrying `fotoBase64`; any other topic and a null photo payload are ignored |
| Bridge.Bridge.constructor | index.js:21-22 | the bridge starts with no batch, no pending photos and no timer |
| Bridge.Bridge.RestartTimer | index.js:54-57 | afterwards exactly one timer is armed, with deadline now + 2000; any earlier one is cancelled |
| Bridge.Bridge.TimerTrace | index.js:54-57 | the class's timer, driven through arrivals by `RestartTimer` with an expired callback leaving it idle as `Fire` does, fires exactly at the times `Passes` gives |
| Bridge.Bridge.OnMessage | index.js:35-50 | a batch replaces the pending one wholesale and keeps the photos; a photo overwrites the entry for its id and keeps the batch; both re-arm the timer; an ignored message leaves the batch, photos and timer unchanged |
| Bridge.Bridge.MapRows | index.js:69-99 | the in-place `map` over one category yields exactly `MapReadings`' readings and leaves the photo map that `MapReadings` predicts |
| Bridge.Bridge.MapCategoryAt | index.js:68-100 | one `forEach` iteration replaces only category i, with `MapCategory`'s result, and updates the photo map accordingly |
| Bridge.Bridge.MapCategories | index.js:64-101 | the in-place `forEach` turns the batch into `Pass`'s document and the photo map into `Pass`'s map |
| Bridge.Bridge.Reconcile | index.js:59-110 | no batch: nothing changes and nothing is sent; otherwise the transformed batch is sent, the photo map is what the pass left, and the batch is cleared if the post succeeded and otherwise kept in transformed form |
| Bridge.Bridge.Fire | index.js:59-110 | the expired timer callback disarms the timer and runs the pass with `Reconcile`'s outcome |

## Left out

- The MQTT connection, TLS options and subscriptions (`index.js:24-33`): network transport. Messages are method calls.
- Environment variables, `process.exit` and the start-up `mkdirSync` (`index.js:7-19`): configuration. The storage directory is a parameter.
- `fs.writeFileSync` and base64 decoding (`index.js:80`): the write is an oracle on path and payload, and photo payloads are opaque values.
  - An entry stored as null (a falsy photo payload, or one without `fotoBase64`) makes `Buffer.from` throw inside the `try`. In the source it always takes the failure path and stays pending. The model's lemmas hold for every oracle, including those that reject null; `NullPhotoStays` states the consequence.
- `axios.post` (`index.js:104`): a success flag.
- Real `setTimeout` / `clearTimeout` and the event loop:
  - time is a logical clock;
  - `Fire` runs only once the deadline has passed;
  - `Passes` and `TimerTrace` assume the event loop runs an expired timer's callback before the next message, even when both fall on the same millisecond. The class itself also allows `OnMessage` to cancel an expired timer whose callback has not run yet, as Node does;
  - the `await` at line 104 is not modelled as an interleaving point. A batch or photo that arrives while the post is in flight, and the lost update that `bufferLeituras = null` then causes, are outside the model.
- `path.join` / `path.resolve` normalisation (`index.js:77`): the path is `dir + "/" + name`.
- `JSON.parse` and `JSON.stringify` (`index.js:37, 97`):
  - the payload arrives already parsed, or as a parse failure;
  - the new `observacao` is the structured record `Info(comentario, url)`, not its serialised string, so escaping and property order are not modelled.
- JSON values other than null and strings are abstracted as `Opaque(truthy, tag)`. `Info` stands for the string that `JSON.stringify` wrote into `observacao` on an earlier pass, kept after a failed post. It is a non-blank string, which line 90 passes through verbatim. An `observacao` holding an object or any other truthy non-string makes line 90 throw; it is excluded by the precondition below.
- Non-array truthy categories and non-object readings are excluded by the model's types: `Campo` is a sequence of categories, each falsy or an array of readings.
- A primitive `Campo` with no keys is represented as the empty category list, because the source posts such a batch unchanged (`KeylessCampoPass`). That covers a number, a boolean and `""`. A non-empty string `Campo` lists its characters as truthy categories, and `"a".map` throws at line 69; it is not represented.
- When line 65, 75 or 90 would throw, the pass has no modelled outcome. Those cases are preconditions (`BatchReady`):
  - `Campo` is undefined or null, for which `Object.keys` throws (line 65);
  - a reading with a pending photo has a non-string `poco`;
  - a reading's `observacao` is a truthy non-string.
- Bridge.Bridge.Reconcile: its precondition (shared by `Fire`, `MapCategories` and `Reconciliation.Pass`) checks each reading against the photo map at the start of the pass. That is slightly stronger than necessary, because the map only shrinks during a pass.
- Strings are sequences of Unicode scalar values, not UTF-16 code units. Trimming only involves characters of the Basic Multilingual Plane, so `trim` and `split` agree with JavaScript on them.
- `timeoutHandle` is never reset to `null` in the source after the timer fires. The model's timer becomes `Idle` instead. The only effect in the source is a `clearTimeout` call on an expired handle, which does nothing.
- Logging through `console.*`.
