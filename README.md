# ellmo backend core, modelled in Dafny

This project models three pieces of the ellmo server's logic and proves
properties of them.

- **Recording an eval run** (`server/src/rpc/eval.rs`).
  - `record_eval` resolves the prompt version and the eval, creating them if
    needed.
  - It picks a base prompt version and finds the most recent result recorded
    on it.
  - It stores the new scores, then compares the two runs with
    `compare_results`.
  - `compare_results` groups scores by eval hash and pairs hashes with
    exactly two entries.
  - It classifies each pair's percent change against ±0.10.
  - It picks an overall outcome in three tiers: a majority of significant
    changes, then a mean within 0.01, then a 0.7 consistency share.
- **Test registration** (`server/src/register/mod.rs`).
  - `is_new_registration` asks whether an incoming map of test descriptors
    holds anything the latest stored snapshot lacks.
  - `test_post` appends a snapshot only when it does.
- **Span ingestion** (`server/src/tracing.rs`).
  - `post` walks each trace's span tree in pre-order.
  - It inserts every span whose two millisecond timestamps are valid.
  - It links each inserted span to its parent's row through a map from span
    uuid to row id.

Modules:

| module | file | contents |
|---|---|---|
| `Wrappers` | `wrappers.dfy` | `Option` and `Result` |
| `LexOrder` | `lexorder.dfy` | the string order used by `version.lt` and `order(version.desc())`, proved a strict total order |
| `Tables` | `tables.dfy` | `MostRecent`, which models `order(created_at.desc()).first()` |
| `Compare` | `compare.dfy` | `compare_results` and its specification |
| `EvalStore` | `eval_store.dfy` | the `prompt_version`, `eval` and `eval_result` tables as a `Store` class, plus `record_eval` |
| `Registration` | `registration.dfy` | `is_new_registration`, plus the `test_registration` table and `test_post` |
| `Tracing` | `tracing.dfy` | `process_span`, `post` and the span table |

Modelling conventions:

- Each table is a sequence, and a row's id is its position plus one. The core
  never deletes a row; ids are modelled without gaps (see "## Left out").
- `Utc::now()` is a counter owned by the table's object. It advances on every
  insert, so later rows have strictly later timestamps.
- `.first()` with no ordering returns the first matching row in insertion
  order.
- Scores and thresholds are exact `real` numbers.
- The iteration order of `compare_results`' hash map is an arbitrary choice
  at each step.
  - `CompareResults` is proved to return the same outcome as a fixed reference
    order (`CompareOutcome`), for every possible order.
  - It reports exactly the meaningful entries, whatever the order.
- The iteration order of `is_new_registration`'s map is a parameter `order`
  that lists the map's keys. The answer is proved not to depend on it.
- JSON columns are datatypes.
  - A column either holds a value of the expected shape or some other value.
  - Decoding the other value fails, as `serde_json::from_value` does.
- In `tracing.rs`, timestamp validity (`timestamp_millis_opt`), uuid parsing
  (`Uuid::from_str`) and insert failure are fields of an `Env` value the walk
  receives. They are left uninterpreted.
- `span.start_time as i64` is modelled as the two's-complement wrap of a
  `u64`.

A hash is paired whenever its group has exactly two entries, not only when
it has one entry from each run: `compare_results`
(`server/src/rpc/eval.rs:244-247`) also pairs two entries from the previous
run with no entry from the current one. `Compare.SameSideDuplicatesArePaired`
shows the consequence: previous `[a:1, a:2]` against an empty current run
reports an improvement.

## Model

| member | source | states |
|---|---|---|
| `LexOrder.StrictTotalOrder` | server/src/rpc/eval.rs:180-186 | the order used to pick the nearest lower version is irreflexive, transitive and total on distinct strings |
| `Tables.MostRecent` | server/src/rpc/eval.rs:152-157 | the pick is None exactly when no row qualifies; otherwise it is a qualifying row with a timestamp no qualifying row exceeds |
| `Tables.MostRecentOfAppended` | server/src/register/mod.rs:38-42 | when timestamps increase with insertion, the most recent row is the one appended last |
| `Compare.PercentChange` | server/src/rpc/eval.rs:249-255 | with a non-zero baseline the change has the sign of the move and times the baseline's magnitude gives the move; with a zero baseline it is zero exactly when the new score is zero, and never negative |
| `Compare.ZeroBaselineIsImprovement` | server/src/rpc/eval.rs:249-265 | any non-zero score after a zero baseline is an individual improvement, even a negative one |
| `Compare.PercentChangeScaleInvariant` | server/src/rpc/eval.rs:249-255 | scaling both scores by the same positive factor leaves the change unchanged |
| `Compare.EntriesFor` | server/src/rpc/eval.rs:228-238 | one run contributes at most one entry per score, each marked with that run's side and carrying a score the run holds under the hash |
| `Compare.Group` | server/src/rpc/eval.rs:227-239 | a group lists the previous run's entries first and the current run's after them, each score taken from the run it is marked with |
| `Compare.EntriesForSingle` | server/src/rpc/eval.rs:228-238 | a hash at exactly one position of a run receives exactly that position's score from the run, marked with the run's side |
| `Compare.PairedScoresFromEachRun` | server/src/rpc/eval.rs:244-247 | a hash occurring exactly once in each run has a group of two entries: the previous run's score, then the current run's |
| `Compare.Classify` | server/src/rpc/eval.rs:259-265 | an individual outcome is never Unknown; it is NoChange exactly when the change is within ±0.10, and otherwise follows the change's direction |
| `Compare.Decide` | server/src/rpc/eval.rs:278-315 | no pairs gives Unknown; NoChange needs no significant change; a definite outcome never goes against the majority of significant changes, and a tie among significant changes is never definite |
| `Compare.Verdict` | server/src/rpc/eval.rs:278-315 | no changes gives Unknown; NoChange needs no significant change; a definite outcome never goes against the majority of significant rises and drops, and a tie among significant changes is never definite |
| `Compare.ChangesAlong` | server/src/rpc/eval.rs:244-257 | at most one change per visited hash |
| `Compare.ChangesAlongNeedsPair` | server/src/rpc/eval.rs:244-257 | no change is recorded unless some visited hash has a group of exactly two entries |
| `Compare.CompareOutcome` | server/src/rpc/eval.rs:219-318 | an outcome other than Unknown requires at least one hash whose group holds exactly two entries |
| `Compare.EntriesForEmpty` | server/src/rpc/eval.rs:227-239 | a hash has no entries from a run exactly when it does not occur in that run |
| `Compare.PushAll` | server/src/rpc/eval.rs:228-233 | after pushing a run, each hash's list is its old list followed by that run's scores for the hash, in order; no other key changes |
| `Compare.GroupScores` | server/src/rpc/eval.rs:227-239 | the keys are exactly the hashes that occur in either run; each group holds the previous entries, then the current ones, in input order |
| `Compare.HashOrder` | server/src/rpc/eval.rs:244 | the reference visiting order lists each occurring hash exactly once and nothing else |
| `Compare.ChangesAlongPermutation` | server/src/rpc/eval.rs:244-257 | visiting the same hashes in another order yields a permutation of the same changes |
| `Compare.VisitOrderIrrelevant` | server/src/rpc/eval.rs:244-276 | any duplicate-free order of the grouped hashes gives the same outcome as the reference order |
| `Compare.VerdictPermutation` | server/src/rpc/eval.rs:278-315 | the outcome depends only on the multiset of changes |
| `Compare.SignificantMajorityDecides` | server/src/rpc/eval.rs:291-296 | with any significant change: Improvement iff more significant rises than drops, Regression iff fewer, Unknown iff equal |
| `Compare.DecideWithoutSignificant` | server/src/rpc/eval.rs:297-315 | without a significant change, the later tiers stated on totals: NoChange iff the sum's magnitude is at most 0.01 per pair; Improvement iff above that and more than 70% of pairs rose; Regression iff above that, at most 70% rose and more than 70% fell |
| `Compare.MeanAndConsistencyDecide` | server/src/rpc/eval.rs:297-315 | the same three statements about a list of changes |
| `Compare.DecideSound` | server/src/rpc/eval.rs:278-315 | no pairs gives Unknown; Improvement needs a rise and Regression a drop; NoChange means pairs exist, none is significant and the sum stays within 0.01 per pair |
| `Compare.VerdictSound` | server/src/rpc/eval.rs:278-315 | the same guarantees stated about the list of changes, with every pair individually NoChange under a NoChange outcome |
| `Compare.DecideMirror` | server/src/rpc/eval.rs:291-315 | swapping the rising and falling counts and negating the sum swaps Improvement and Regression and keeps NoChange and Unknown |
| `Compare.VerdictMirror` | server/src/rpc/eval.rs:278-315 | negating every change swaps Improvement and Regression and leaves NoChange and Unknown alone |
| `Compare.AllSignificantlyUp` | server/src/rpc/eval.rs:282-296 | if every pair rose by more than 10%, the run is an improvement |
| `Compare.ConsistentSmallDrift` | server/src/rpc/eval.rs:298-311 | if every pair rose by more than 1% and at most 10%, the consistency tier reports an improvement |
| `Compare.BelowBothThresholds` | server/src/rpc/eval.rs:298-314 | if every change lies within ±1%, the outcome is NoChange |
| `Compare.CompareResults` | server/src/rpc/eval.rs:219-318 | the outcome equals the reference outcome whatever the hash-map order; the meaningful list holds exactly the pairs whose change passes ±0.10, each with its two scores in group order and its individual outcome, and no hash twice |
| `Compare.OneSidedHashesAreIgnored` | server/src/rpc/eval.rs:244-280 | when the two runs share no hash and neither repeats one, the outcome is Unknown and nothing is meaningful |
| `Compare.SameSideDuplicatesArePaired` | server/src/rpc/eval.rs:244-247 | two previous scores under one hash, with none current, are paired and reported as an improvement |
| `EvalStore.ConvertEvalScores` | server/src/rpc/eval.rs:192-200 | one stored score per request score |
| `EvalStore.ToEvalScores` | server/src/rpc/eval.rs:57-63 | the response lists one score per stored score; position by position it is the inverse of `ConvertEvalScores` (proved in `ConversionRoundTrip`), so no hash or score is lost or altered |
| `EvalStore.ConversionRoundTrip` | server/src/rpc/eval.rs:57-63 | converting request scores to stored scores and back (and the reverse) loses nothing |
| `EvalStore.SerializeScores` | server/src/rpc/eval.rs:211-212 | stored scores decode back to the same list |
| `EvalStore.DeserializeScores` | server/src/rpc/eval.rs:50-51 | decoding fails exactly on a column of another shape, with an internal error |
| `EvalStore.IndexOfVersion` | server/src/rpc/eval.rs:83-88 | the position found holds the requested version and no earlier row does; the end position means no row does |
| `EvalStore.FirstWithVersion` | server/src/rpc/eval.rs:83-88 | None exactly when no prompt version has the version string; otherwise a stored row with that version |
| `EvalStore.FirstEval` | server/src/rpc/eval.rs:112-123 | None exactly when no eval has the name and a prompt version with the version; otherwise a stored eval that does |
| `EvalStore.IndexOfEval` | server/src/rpc/eval.rs:112-123 | the position found holds an eval with the name whose prompt version has the version, and no earlier eval qualifies |
| `EvalStore.GreatestBelow` | server/src/rpc/eval.rs:180-186 | None iff no version sorts below the current one; otherwise a stored version below it with no stored version strictly between |
| `EvalStore.GreatestBelowDetermined` | server/src/rpc/eval.rs:180-186 | any stored version below the current one with nothing stored strictly between is the version chosen |
| `EvalStore.BasePromptVersion` | server/src/rpc/eval.rs:162-190 | an explicit base fails with invalid_argument iff no row has that version, and otherwise returns such a row; without one, the nearest lower version or None, never an error |
| `EvalStore.PreviousEvalResult` | server/src/rpc/eval.rs:140-160 | fails exactly when base resolution fails; no base gives None; otherwise the latest result of an eval on the base, which exists whenever any such result does |
| `EvalStore.RecordedResultIsPrevious` | server/src/rpc/eval.rs:140-160 | a result stamped after every stored one, on an eval of the base prompt version, is the previous result the next lookup against that base returns |
| `EvalStore.Store.Now` | server/src/rpc/eval.rs:96 | each reading is later than every earlier one |
| `EvalStore.Store.GetOrCreatePromptVersion` | server/src/rpc/eval.rs:77-103 | returns the first row with the version and changes nothing, whatever the name; else appends exactly one row with the name and version; afterwards the lookup finds the returned row |
| `EvalStore.Store.GetOrCreateEval` | server/src/rpc/eval.rs:105-138 | returns the first eval matching name and version and changes nothing; else appends one eval owned by the given prompt version; afterwards the lookup finds it |
| `EvalStore.Store.CreateNewEvalResult` | server/src/rpc/eval.rs:202-217 | appends exactly one result for the eval, with the encoded scores and the current time, later than every stored result, so results stay in timestamp order |
| `EvalStore.Store.RecordEval` | server/src/rpc/eval.rs:22-75 | see the expansion below |
| `EvalStore.Store.Resolve` | server/src/rpc/eval.rs:40-41 | each of the prompt-version and eval tables grows by at most one row; an existing match leaves its table unchanged; a new prompt version carries the prompt's name and version, a new eval the eval's name and the resolved prompt version as owner; afterwards both lookups succeed and the eval lookup returns the result |
| `EvalStore.Store.RecordAndCompare` | server/src/rpc/eval.rs:46-74 | appends exactly one result even when the previous scores cannot be decoded; no previous result answers no_change with empty lists; undecodable previous scores answer the internal error; otherwise the outcome is the reference outcome, the previous scores are echoed and the meaningful list holds exactly the meaningful pairs, no hash twice |
| `EvalStore.ResolvePromptTwice` | server/src/rpc/eval.rs:83-101 | two sequential resolutions of one prompt return the same row and add at most one row |
| `EvalStore.RecordTwice` | server/src/rpc/eval.rs:39-41 | submitting the same run twice adds at most one prompt version and one eval |
| `Registration.Serialize` | server/src/register/mod.rs:71 | a stored payload decodes back to the same map |
| `Registration.Deserialize` | server/src/register/mod.rs:88-89 | decoding fails exactly on metadata of another shape |
| `Registration.Covered` | server/src/register/mod.rs:93-111 | every snapshot covers itself, and a map with an id the snapshot lacks is never covered |
| `Registration.AnyMatch` | server/src/register/mod.rs:101-105 | true iff some previous descriptor agrees on version, export name and file path |
| `Registration.FirstUnmatched` | server/src/register/mod.rs:100-108 | the inner loop returns true iff some incoming descriptor has no match |
| `Registration.NovelAlong` | server/src/register/mod.rs:93-111 | the loop returns false iff every visited id is known and each of its descriptors is matched under that id |
| `Registration.IsNewRegistration` | server/src/register/mod.rs:83-112 | no previous snapshot gives true; undecodable metadata gives an error; else false exactly when every incoming descriptor is matched under its id |
| `Registration.OrderIrrelevant` | server/src/register/mod.rs:93-111 | two iteration orders of the incoming map give the same answer |
| `Registration.UnknownIdIsNew` | server/src/register/mod.rs:94-98 | an incoming id missing from the previous snapshot makes the answer true, even with an empty descriptor list |
| `Registration.ResubmissionIsNotNew` | server/src/register/mod.rs:143-158 | resubmitting the stored map gives false |
| `Registration.LargerSnapshotStillCovers` | server/src/register/mod.rs:93-111 | extra previous ids or descriptors never turn a false answer into true |
| `Registration.NoPreviousExample` | server/src/register/mod.rs:136-140 | no previous snapshot and an empty payload gives true |
| `Registration.IdenticalExample` | server/src/register/mod.rs:142-158 | the identical single-test snapshot gives false |
| `Registration.NewIdExample` | server/src/register/mod.rs:160-172 | a new test id gives true |
| `Registration.NewVersionExample` | server/src/register/mod.rs:174-193 | an added version gives true |
| `Registration.ChangedExportNameExample` | server/src/register/mod.rs:195-211 | a changed export name gives true |
| `Registration.ChangedFilePathExample` | server/src/register/mod.rs:213-229 | a changed file path gives true |
| `Registration.InvalidMetadataExample` | server/src/register/mod.rs:231-243 | metadata of the wrong shape gives an error |
| `Registration.Latest` | server/src/register/mod.rs:38-42 | None exactly for an empty table; otherwise a stored snapshot that no other snapshot postdates |
| `Registration.RegistrationTable.TestPost` | server/src/register/mod.rs:31-81 | a fetch failure or a check error gives 500 with the table unchanged; false gives OK with the table unchanged; true appends exactly one snapshot of the payload and gives OK, or gives 500 with nothing appended if the insert fails |
| `Registration.ResubmissionAfterInsertIsNotNew` | server/src/register/mod.rs:38-54 | right after a payload is stored, checking it again against the latest row gives false |
| `Registration.PostTwice` | server/src/register/mod.rs:31-81 | posting one payload twice stores at most one snapshot, and if the first post succeeds so does the second |
| `Tracing.AsI64` | server/src/tracing.rs:44-45 | the result is in the i64 range, agrees with the input modulo 2^64, and equals it exactly below 2^63 |
| `Tracing.HasValidTimes` | server/src/tracing.rs:44-51 | for timestamps below 2^63 the cast is the identity, so validity is that of the two timestamps as given |
| `Tracing.RowFor` | server/src/tracing.rs:53-64 | the row keeps the span's name and parsed uuid; it links a parent exactly when the parent uuid is already mapped, to that parent's row, and drops an unknown parent without error; timestamps below 2^63 are stored unchanged |
| `Tracing.Visit` | server/src/tracing.rs:43-78 | a span appends its row and maps its uuid to the new row's id if and only if both its times are valid and the insert is not rejected; otherwise the table and the map are unchanged |
| `Tracing.PreOrder` | server/src/tracing.rs:80-87 | the walk visits at least every root, starting with the first |
| `Tracing.VisitAll` | server/src/tracing.rs:85-87 | visiting spans none of which has valid timestamps leaves the table and the map unchanged |
| `Tracing.PreOrderConcat` | server/src/tracing.rs:85-87 | walking two forests one after the other is walking their concatenation |
| `Tracing.VisitAllConcat` | server/src/tracing.rs:85-87 | processing two span sequences in turn is processing their concatenation |
| `Tracing.PreOrderClosed` | server/src/tracing.rs:80-82 | every root is visited, and every child of a visited span is visited, whether or not that span was valid |
| `Tracing.PreOrderLength` | server/src/tracing.rs:80-87 | the walk has exactly one step per span of the forest |
| `Tracing.InvalidSpanSkippedChildrenVisited` | server/src/tracing.rs:75-82 | a span with an invalid time adds nothing, and its subtrees are processed as if they were roots |
| `Tracing.VisitAllAppendOnly` | server/src/tracing.rs:48-73 | see the expansion below |
| `Tracing.VisitAllKeepsLinksBackward` | server/src/tracing.rs:53-71 | if every stored parent link and map entry points at an existing earlier row, they still do after the walk |
| `Tracing.ParentLinkedWhenKnown` | server/src/tracing.rs:53-71 | a valid span whose parent uuid is already mapped is stored with that parent's row id, and its own uuid is mapped to its new row |
| `Tracing.SpanRepository.Create` | server/src/tracing.rs:67-74 | a rejected insert changes nothing and gives no id; otherwise one row is appended and its id returned |
| `Tracing.ProcessSpan` | server/src/tracing.rs:38-83 | the table and map afterwards are those of visiting the span's subtree in pre-order |
| `Tracing.Post` | server/src/tracing.rs:85-89 | the table afterwards is that of visiting all traces in pre-order with a map that starts empty; the status is always OK |

Expansion of `EvalStore.Store.RecordEval`:

- A missing eval or prompt fails with invalid_argument, and the store is
  unchanged.
- Otherwise the prompt version and the eval are resolved, and each table grows
  by at most one row.
- A prompt version created by the call carries the prompt's name and version.
- An eval created by the call carries the eval's name and is owned by the
  prompt version the lookup resolves to.
- The base's most recent result is looked up among the results that existed
  before the call.
- A missing explicit base fails after resolution, with no result inserted.
- On every other path exactly one result is appended, with the converted
  scores and a timestamp later than every earlier result.
- No previous result gives NoChange with empty lists.
- An undecodable previous result gives an internal error.
- Otherwise the response carries the compared outcome, the previous scores,
  and exactly the meaningful pairs, no hash twice.

Expansion of `Tracing.VisitAllAppendOnly`:

- Rows are only appended, and at most one row per visited span.
- Only spans with valid times become rows.
- No uuid is ever dropped from the map.
- Every new or changed map entry points at a row the walk added.

## Left out

- Database plumbing (diesel queries, `establish_connection`, the
  `Repository` impls) is replaced by the in-memory tables.
- Storage faults in `server/src/rpc/eval.rs` are not modelled: the
  "Failed to fetch …", "Failed to create …" and "Failed to serialize scores"
  internal errors never occur in the model.
- `test_post` models its two storage faults as boolean parameters.
- Concurrent callers and check-then-insert races are not modelled. Idempotence
  is stated for sequential calls only.
- f32 arithmetic and rounding are not modelled. Scores, changes and thresholds
  are exact reals.
- Postgres text collation is not modelled. Version strings are ordered
  lexicographically by character code.
- JSON encoding and decoding are not modelled beyond "a value of the expected
  shape or not".
- The calendar meaning of `timestamp_millis_opt` is uninterpreted, and so are
  uuid syntax and the database's reasons for rejecting a span row.
- Timestamps are a per-object counter instead of `chrono::Utc::now`.
- The `hash` column of `test_registration` is not modelled. `test_post` never
  sets it.
- Row ids are unbounded integers; i32 overflow of serial ids is not modelled.
- Ids are modelled without gaps: a failed insert consumes no id in the model
  (`insertFails` in `test_post`, a rejected span row in `post`), while a
  Postgres serial sequence is not rolled back and skips that id. After such
  a failure the model's later row ids, and so the span uuid map and
  `parent_span_id` links, are one lower than the database's.
- `println!` diagnostics, HTTP and RPC transport, and the response bodies
  (`Json(())`) are not modelled.
- `src/main.rs` holds an older draft of span ingestion and is not part of
  this model.
- `Compare.CompareResults`: the meaningful list is characterised as a set.
  Its order follows the hash map's order, which is unspecified.
