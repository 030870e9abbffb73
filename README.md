# Zoom Admin "Changes to Webinar Panelists" source, modelled in Dafny

This project models the event source that watches the panelists of Zoom
webinars. On deploy and on every timer tick it does the following:

- It decides which webinars to poll. These are the configured ones, or else every
  webinar of the account, found by paging through the webinar listing.
- For each webinar it fetches the current panelists. It diffs them against the
  snapshot stored for that webinar in the source's key-value store.
- It emits a `panelist.deleted` event for each stored panelist that is gone. Then,
  in list order, it emits `panelist.added` for each new panelist and
  `panelist.changed` for each one whose record fingerprint differs from the stored
  record.
- Finally it stores the new snapshot.

Every event carries metadata: a dedupe id `<panelist id>-<event type>` and a
one-line summary.

Modules:

- `Panelists` (panelist.dfy): the panelist record, its serialization and the
  fingerprint comparison.
- `EventMeta` (meta.dfy): event types and `generateMeta`.
- `SeqDifference` (difference.dfy): the order-preserving list difference the diff
  uses.
- `SnapshotDiff` (diff.dfy): snapshots, the specification of one webinar's diff,
  and the imperative diff itself (`DiffWebinar`).
- `DiffProperties` (diff_props.dfy): what one diff promises.
- `WebinarPagination` (pagination.dfy): the webinar listing loop.
- `PanelistChanges` (source.dfy): a whole run and the `PanelistSource` class. The
  class holds the store and the log of emitted events.
- `Scenarios` (scenarios.dfy): small concrete runs of the diff.

API responses are parameters. `pages[k]` is the k-th response of the webinar
listing. `fetch(w)` is the panelist listing of webinar `w`, and `None` stands for
a request that fails. A failed request aborts the run, as the uncaught rejection
does in the source: events and snapshots produced before it remain.

## Model

Every row cites the source file `components/zoom_admin/sources/webinar-changes-to-panelists/webinar-changes-to-panelists.js`.

| member | source | states |
|---|---|---|
| Panelists.Serialize | components/zoom_admin/sources/webinar-changes-to-panelists/webinar-changes-to-panelists.js:103-104 | the record as `JSON.stringify` writes it, abstracted to tokens: id, email, the name or a marker for its absence, then the other fields in order; its injectivity is `SameFingerprintIff` |
| Panelists.SameFingerprint | components/zoom_admin/sources/webinar-changes-to-panelists/webinar-changes-to-panelists.js:101-105 | the comparison of the two hashes, taken as comparison of the serialized records; characterised by `SameFingerprintIff` and `ReorderedFieldsChangeFingerprint` |
| Panelists.SameFingerprintIff | components/zoom_admin/sources/webinar-changes-to-panelists/webinar-changes-to-panelists.js:101-105 | two records have the same fingerprint exactly when they are the same record (serialization is injective; the hash is taken as collision-free) |
| Panelists.FieldTokensInjective | components/zoom_admin/sources/webinar-changes-to-panelists/webinar-changes-to-panelists.js:103-104 | the serialization of the extra fields determines the fields, in order |
| Panelists.ReorderedFieldsChangeFingerprint | components/zoom_admin/sources/webinar-changes-to-panelists/webinar-changes-to-panelists.js:103-104 | the same two distinct fields in the other order give a different fingerprint, so a reordering alone is reported as a change |
| EventMeta.GenerateMeta | components/zoom_admin/sources/webinar-changes-to-panelists/webinar-changes-to-panelists.js:30-39 | the dedupe id and summary of an event; its properties are `ParseGeneratedMetaId`, `MetaIdIdentifiesPanelistAndKind`, `SummaryNamesType`, `NamelessSummaryNamesEmail` and the concrete `Scenarios.FirstPollMeta` and `Scenarios.RemovedPanelistMeta` |
| EventMeta.SummaryNamesType | components/zoom_admin/sources/webinar-changes-to-panelists/webinar-changes-to-panelists.js:32-34 | two events with the same summary are of the same type, whatever the panelists |
| EventMeta.NamelessSummaryNamesEmail | components/zoom_admin/sources/webinar-changes-to-panelists/webinar-changes-to-panelists.js:32-34 | for panelists without a (truthy) name, two summaries of the same type are equal if and only if the emails are |
| EventMeta.MissingAndEmptyNameLookAlike | components/zoom_admin/sources/webinar-changes-to-panelists/webinar-changes-to-panelists.js:30-34 | a missing and an empty name give the same metadata but different fingerprints, so such a change is reported with a summary identical to the old one |
| EventMeta.ParseGeneratedMetaId | components/zoom_admin/sources/webinar-changes-to-panelists/webinar-changes-to-panelists.js:35-38 | the dedupe id splits back into exactly the panelist id and the event type |
| EventMeta.MetaIdIdentifiesPanelistAndKind | components/zoom_admin/sources/webinar-changes-to-panelists/webinar-changes-to-panelists.js:35-38 | two events share a dedupe id if and only if they have the same type and panelist id, whatever the other contents |
| SeqDifference.Difference | components/zoom_admin/sources/webinar-changes-to-panelists/webinar-changes-to-panelists.js:75 | an element is in the difference exactly when it is in the first list and not in the second; the result is no longer than the first list |
| SeqDifference.DifferenceKeepsOrder | components/zoom_admin/sources/webinar-changes-to-panelists/webinar-changes-to-panelists.js:75 | the difference is a subsequence of the first list (order kept) |
| SeqDifference.DifferenceDistinct | components/zoom_admin/sources/webinar-changes-to-panelists/webinar-changes-to-panelists.js:75 | the difference of a list without repeats has no repeats |
| SeqDifference.DifferenceOfCovered | components/zoom_admin/sources/webinar-changes-to-panelists/webinar-changes-to-panelists.js:75 | a list all of whose elements are in the second list leaves an empty difference (no stored id is reported deleted when all are listed) |
| SnapshotDiff.OrEmpty | components/zoom_admin/sources/webinar-changes-to-panelists/webinar-changes-to-panelists.js:67 | a missing snapshot counts as the empty one; `DiffProperties.AbsentSnapshotAllAdded` states what that gives |
| SnapshotDiff.Insert | components/zoom_admin/sources/webinar-changes-to-panelists/webinar-changes-to-panelists.js:93 | assigning a record under its id: a new id is appended to the keys, an existing one keeps its place and gets the new record; its effect is stated by `BuildSnapshotLastWins` and `BuildSnapshotKeyOrder` |
| SnapshotDiff.BuildSnapshot | components/zoom_admin/sources/webinar-changes-to-panelists/webinar-changes-to-panelists.js:91-93 | the new snapshot is well formed: keys without repeats, exactly the record ids |
| SnapshotDiff.BuildSnapshotDomain | components/zoom_admin/sources/webinar-changes-to-panelists/webinar-changes-to-panelists.js:91-93 | every current panelist's id is a key, and every stored record is a current panelist filed under its own id |
| SnapshotDiff.IdIsKey | components/zoom_admin/sources/webinar-changes-to-panelists/webinar-changes-to-panelists.js:93 | the id of each listed panelist is a key of the new snapshot |
| SnapshotDiff.KeyOccurs | components/zoom_admin/sources/webinar-changes-to-panelists/webinar-changes-to-panelists.js:93 | each key of the new snapshot names a listed panelist, whose record is stored under it |
| SnapshotDiff.PanelistEventsAsTwoChecks | components/zoom_admin/sources/webinar-changes-to-panelists/webinar-changes-to-panelists.js:94-111 | the events of one panelist are those of the two independent checks: added-id membership, then stored-and-fingerprint-differs |
| SnapshotDiff.PanelistEvents | components/zoom_admin/sources/webinar-changes-to-panelists/webinar-changes-to-panelists.js:94-111 | the events of one listed panelist: added when its id is not stored, changed when stored with another fingerprint; stated by `AddedEventsExact`, `ChangedEventsExact`, `NeverAddedAndChanged` |
| SnapshotDiff.CurrentEvents | components/zoom_admin/sources/webinar-changes-to-panelists/webinar-changes-to-panelists.js:92-112 | the events of the listed panelists, in list order; stated by `CurrentEventsFrom` and `EventOfCurrentList` |
| SnapshotDiff.DiffEvents | components/zoom_admin/sources/webinar-changes-to-panelists/webinar-changes-to-panelists.js:74-112 | the deleted events followed by the events of the listed panelists; stated by `DeletedEventsFirst`, `AddedEventsExact`, `ChangedEventsExact`, `DiffIdempotent`, and implemented by `DiffWebinar` |
| SnapshotDiff.EmitDeleted | components/zoom_admin/sources/webinar-changes-to-panelists/webinar-changes-to-panelists.js:78-85 | the loop emits one deleted event per deleted id, in order, carrying the stored record |
| SnapshotDiff.DiffWebinar | components/zoom_admin/sources/webinar-changes-to-panelists/webinar-changes-to-panelists.js:67-114 | the imperative diff of one webinar emits exactly the specified events (deleted first, then per-panelist added/changed) and yields the snapshot built from the current list |
| DiffProperties.CurrentEventsFrom | components/zoom_admin/sources/webinar-changes-to-panelists/webinar-changes-to-panelists.js:92-112 | an event is among the current-list events exactly when it is an event of one of the listed panelists |
| DiffProperties.DeletedIdsExact | components/zoom_admin/sources/webinar-changes-to-panelists/webinar-changes-to-panelists.js:69-75 | the deleted ids are exactly the stored ids missing from the current list, each once, in stored-key order |
| DiffProperties.DeletedEventsFirst | components/zoom_admin/sources/webinar-changes-to-panelists/webinar-changes-to-panelists.js:74-85 | the first events are the deleted ones, one per deleted id in order with the stored record; no later event is a deletion |
| DiffProperties.EventOfCurrentList | components/zoom_admin/sources/webinar-changes-to-panelists/webinar-changes-to-panelists.js:92-112 | an event of the diff that is not a deletion is exactly an event of one of the listed panelists (added or changed) |
| DiffProperties.AddedEventsExact | components/zoom_admin/sources/webinar-changes-to-panelists/webinar-changes-to-panelists.js:87-100 | a listed panelist is reported added if and only if its id is not stored; every added event carries a listed panelist |
| DiffProperties.ChangedEventsExact | components/zoom_admin/sources/webinar-changes-to-panelists/webinar-changes-to-panelists.js:101-111 | a listed panelist is reported changed if and only if its id is stored with a record of another fingerprint; every changed event carries a listed panelist |
| DiffProperties.NeverAddedAndChanged | components/zoom_admin/sources/webinar-changes-to-panelists/webinar-changes-to-panelists.js:94-111 | no panelist is reported both added and changed in one diff |
| DiffProperties.CurrentEventsAgainstEmpty | components/zoom_admin/sources/webinar-changes-to-panelists/webinar-changes-to-panelists.js:67 | against an empty snapshot every listed panelist yields one added event, in list order |
| DiffProperties.AbsentSnapshotAllAdded | components/zoom_admin/sources/webinar-changes-to-panelists/webinar-changes-to-panelists.js:67 | with no stored snapshot, the diff is exactly one added event per listed panelist, in list order |
| DiffProperties.BuildSnapshotLastWinsAt | components/zoom_admin/sources/webinar-changes-to-panelists/webinar-changes-to-panelists.js:91-93 | the record stored under an id is its last occurrence in the list |
| DiffProperties.BuildSnapshotLastWins | components/zoom_admin/sources/webinar-changes-to-panelists/webinar-changes-to-panelists.js:91-93 | for every position that is an id's last occurrence, that record is the one stored |
| DiffProperties.BuildSnapshotKeyOrderAt | components/zoom_admin/sources/webinar-changes-to-panelists/webinar-changes-to-panelists.js:91-93 | a key earlier in the snapshot first occurs in the list before any occurrence of a later key |
| DiffProperties.BuildSnapshotKeyOrder | components/zoom_admin/sources/webinar-changes-to-panelists/webinar-changes-to-panelists.js:91-93 | snapshot keys are in first-occurrence order of the list |
| DiffProperties.CurrentEventsWhenStored | components/zoom_admin/sources/webinar-changes-to-panelists/webinar-changes-to-panelists.js:94-111 | panelists already stored with the same record yield no events |
| DiffProperties.DiffIdempotent | components/zoom_admin/sources/webinar-changes-to-panelists/webinar-changes-to-panelists.js:67-114 | diffing a list (one record per id) against the snapshot built from it emits nothing |
| DiffProperties.RepeatedIdWithTwoRecordsIsReportedAgain | components/zoom_admin/sources/webinar-changes-to-panelists/webinar-changes-to-panelists.js:91-111 | when the list repeats an id with two different records, the earlier one is reported changed on every later poll |
| WebinarPagination.CollectWebinars | components/zoom_admin/sources/webinar-changes-to-panelists/webinar-changes-to-panelists.js:48-57 | the ids gathered from the successive listing responses, or none when a request fails; stated by `CollectWebinarsSucceedsIff` and `CollectWebinarsUpToFirstLastPage`, implemented by `ListAllWebinars` |
| WebinarPagination.CollectWebinarsSucceedsIff | components/zoom_admin/sources/webinar-changes-to-panelists/webinar-changes-to-panelists.js:48-57 | the listing succeeds if and only if some response has no next-page token |
| WebinarPagination.CollectWebinarsUpToFirstLastPage | components/zoom_admin/sources/webinar-changes-to-panelists/webinar-changes-to-panelists.js:48-57 | it yields the webinar ids of all pages up to and including the first page without a token, in order |
| WebinarPagination.ListAllWebinars | components/zoom_admin/sources/webinar-changes-to-panelists/webinar-changes-to-panelists.js:48-57 | the do-while loop pushes exactly the ids the listing specification yields, or fails when it does |
| WebinarPagination.WebinarsToPoll | components/zoom_admin/sources/webinar-changes-to-panelists/webinar-changes-to-panelists.js:46-47 | the choice between the configured webinars and the listing; its partners are `WebinarsToPollKnownIff` and `PanelistChanges.ConfiguredWebinarsIgnoreListing` |
| WebinarPagination.WebinarsToPollKnownIff | components/zoom_admin/sources/webinar-changes-to-panelists/webinar-changes-to-panelists.js:46-57 | the webinars to poll are known if and only if some are configured or some listing response has no next-page token |
| PanelistChanges.Poll | components/zoom_admin/sources/webinar-changes-to-panelists/webinar-changes-to-panelists.js:43-115 | a whole run: nothing when the webinars cannot be listed, else the loop over them; stated by `PollCompletedIff`, `PollIdempotent`, `ConfiguredWebinarsIgnoreListing`, and implemented by `PanelistSource.FetchAndEmitParticipants` |
| PanelistChanges.ProcessWebinars | components/zoom_admin/sources/webinar-changes-to-panelists/webinar-changes-to-panelists.js:60-115 | the loop over the webinars keeps every stored snapshot well formed |
| PanelistChanges.ProcessWebinarsCompletedIff | components/zoom_admin/sources/webinar-changes-to-panelists/webinar-changes-to-panelists.js:60-63 | the loop completes exactly when every panelist listing succeeds |
| PanelistChanges.ProcessWebinarsLeavesOthers | components/zoom_admin/sources/webinar-changes-to-panelists/webinar-changes-to-panelists.js:114 | snapshots of webinars that are not polled are unchanged |
| PanelistChanges.ProcessWebinarsStores | components/zoom_admin/sources/webinar-changes-to-panelists/webinar-changes-to-panelists.js:114 | after a completed loop each polled webinar stores the snapshot of its current panelists |
| PanelistChanges.ProcessWebinarsStopsAtFailure | components/zoom_admin/sources/webinar-changes-to-panelists/webinar-changes-to-panelists.js:60-63 | a run whose n-th listing is the first to fail emits and stores what the first n webinars do, and is not completed |
| PanelistChanges.ProcessWebinarsQuiet | components/zoom_admin/sources/webinar-changes-to-panelists/webinar-changes-to-panelists.js:60-115 | when every polled webinar already stores the snapshot of its current list, the loop emits nothing and changes nothing |
| PanelistChanges.ConfiguredWebinarsIgnoreListing | components/zoom_admin/sources/webinar-changes-to-panelists/webinar-changes-to-panelists.js:46-60 | with webinars configured, the run is the loop over exactly them and does not depend on the listing responses |
| PanelistChanges.PollCompletedIff | components/zoom_admin/sources/webinar-changes-to-panelists/webinar-changes-to-panelists.js:43-63 | a run completes exactly when the webinars are known and every panelist listing succeeds |
| PanelistChanges.QuietAfterCompletedRun | components/zoom_admin/sources/webinar-changes-to-panelists/webinar-changes-to-panelists.js:60-115 | after a completed loop, the same loop on the same responses (one record per id) emits nothing and changes nothing |
| PanelistChanges.PollIdempotent | components/zoom_admin/sources/webinar-changes-to-panelists/webinar-changes-to-panelists.js:43-115 | a second run on the same responses, after a first run that completed or not, emits nothing, leaves the store unchanged and ends as the first did, provided each polled listing has one record per id |
| PanelistChanges.PanelistSource.constructor | components/zoom_admin/sources/webinar-changes-to-panelists/webinar-changes-to-panelists.js:12-22 | a fresh source has an empty store and has emitted nothing |
| PanelistChanges.PanelistSource.PollWebinars | components/zoom_admin/sources/webinar-changes-to-panelists/webinar-changes-to-panelists.js:60-115 | the loop appends exactly the specified events to the log and leaves exactly the specified store |
| PanelistChanges.PanelistSource.FetchAndEmitParticipants | components/zoom_admin/sources/webinar-changes-to-panelists/webinar-changes-to-panelists.js:43-116 | one run appends exactly the events of `Poll` on the old store, stores its snapshots, and reports whether it completed |
| Scenarios.FirstPollReportsAdded | components/zoom_admin/sources/webinar-changes-to-panelists/webinar-changes-to-panelists.js:87-100 | with no stored snapshot, a nameless panelist "1" gives one added event, and the new snapshot holds it |
| Scenarios.FirstPollMeta | components/zoom_admin/sources/webinar-changes-to-panelists/webinar-changes-to-panelists.js:30-39 | that event's dedupe id is "1-panelist.added" and its summary is "panelist.added - a@x.com" |
| Scenarios.RemovedPanelistReportsDeleted | components/zoom_admin/sources/webinar-changes-to-panelists/webinar-changes-to-panelists.js:74-85 | an empty list against a stored panelist gives one deleted event with the stored record, and the new snapshot is empty |
| Scenarios.RemovedPanelistMeta | components/zoom_admin/sources/webinar-changes-to-panelists/webinar-changes-to-panelists.js:30-39 | that event's dedupe id is "1-panelist.deleted" and its summary names the stored name and email |
| Scenarios.ChangedEmailReportsChanged | components/zoom_admin/sources/webinar-changes-to-panelists/webinar-changes-to-panelists.js:101-111 | a changed email gives exactly one changed event with the current record |

## Left out

- The HTTP calls: the API client is not part of this model. Its responses are parameters, and a failed request is `None`. The page token sent with each listing request is not modelled, because the responses are taken in call order.
- Repeated panelist listings in one run: `fetch` is a function of the webinar id, so a webinar polled twice in one run gets the same answer (or the same failure) both times. The source makes a separate request each time, and the two answers may differ.
- Asynchrony: runs are sequential and atomic here. Two overlapping timer ticks are not modelled.
- `$emit` and the platform's "unique" dedupe: emitting appends to the `emitted` log. Dropping events whose dedupe id was already seen happens downstream and is not modelled. `EventMeta.MetaIdIdentifiesPanelistAndKind` states which events such a sink would collapse.
- The event payload: it is built as `{ eventType, ...panelist, webinarID }`, so a record field named `eventType` replaces the event type in the payload, and a record field named `webinarID` is itself replaced by the webinar id. The model keeps type, record and webinar id as separate fields. The metadata is computed from them by `SnapshotDiff.EventMetaOf`.
- SHA-256 and the JSON byte format: the fingerprint compares the serialized token sequences directly, so the hash is taken to be collision-free. The serialization keeps the order of the fields beyond id, email and name, so it is order-sensitive among those fields like `JSON.stringify`.
- Key order of id, email and name: the model writes these three at fixed places before the other fields. A response that only reorders them is reported changed by the source and not by the model.
- Panelist names: the name is either missing (`None`) or a string, and the summary treats a missing and an empty name alike, as the truthiness test does. A `null` name is not modelled: it is falsy in the summary but serializes differently from both a missing and an empty name, so a change between `null` and those two is not seen by the model.
- JavaScript object semantics: `in` reaching inherited prototype properties, and integer-like keys being ordered first by `Object.keys`, are not modelled. Keys keep insertion order.
- The `webinars` prop: when it is an empty array the source pushes the listed ids into the prop itself, so a later run in the same process could skip the listing. The model chooses afresh on every run.
- The implicit global loop variable `webinarID`, the `console.log` calls, the timer interval and the prop definitions have no effect on the model's behaviour.
- PanelistChanges.Poll: a run that ends early reports `completed == false` instead of rejecting its promise.
