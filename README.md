# xhub storage layer in Dafny

xhub is a small HTTP service that stores experimental resources (studies,
their trials, and files) in an ordered key-value database. Every handler
boils down to a few operations on an ordered bucket, a sorted map from
string keys to opaque byte payloads:

- **Trial handlers** (`trial.go`), on the shared `studies` bucket:
  - *Post* writes a payload under the caller's id.
  - *Get* is a point read of `/studies/<s>/trials/<t>`.
  - *List* is a prefix scan of `/studies/<s>/trials`. It rebuilds each resource from its key.
  - *Delete* is a cascade. It scans two roots, `/studies/<s>/trials/<t>` and `/files/<s>/<t>`, and deletes every key each scan yields.
- **Study handlers** (`studies.go`), on the `studies` bucket (payloads) and the `studylist` bucket (creation timestamps):
  - *post* writes to both buckets.
  - *list* walks `studylist` in key order and joins each entry with `studies`.
  - *get* and *delete* act on `/studies/<name>` in `studies` only.

Modules:

- `Order` (`order.dfy`): the bucket's key order. Characters are compared one by one, and a proper prefix sorts first. It is proved a strict total order. It also defines the least key of a set.
- `Buckets` (`bucket.dfy`): the ordered bucket as a class over a `map`, with point Get/Put/Delete and the scans.
  - Scans: `PrefixItems` and `Items`, with a cursor walk `Walk`.
  - A scan is specified by `Entries`, the matching entries with the least key first. Any ascending, exact listing is proved to be that sequence.
  - Store failures come from outside as a set of failing operations (`Faults`). A fault names the bucket and the key or prefix.
- `Resources` (`resource.dfy`): the `Resource` record and the handler outcome `Reply` (`Ok`, `NotFound` or `StoreError`), which stands in for HTTP status codes.
- `Keys` (`keys.dfy`): the key builders, and what keeps the key tree unambiguous once ids contain no `/`.
- `Trial` (`trial.dfy`): `TrialController`, including the cascade, and the cascade's failure, idempotence and coverage lemmas.
- `Studies` (`studies.dfy`): `StudyController`.
- `Scenarios` (`scenarios.dfy`): request sequences on fresh buckets, with their outcomes stated.

The model follows the code as written:

- Trial delete uses no separator after the trial id.
- Study list is driven by `studylist`, with a lookup in `studies` per entry.
- Ids containing `/` are neither rejected nor escaped.

## Model

| member | source | states |
|---|---|---|
| Order.Less | trial.go:55 | the key order of the bucket's scans: character by character, a proper prefix first (its properties are the lemmas below) |
| Order.LessTransitive | trial.go:55 | the scan order is transitive |
| Order.LessTotal | trial.go:55 | any two distinct keys are ordered one way or the other |
| Order.LessIrreflexive | trial.go:55 | no key sorts before itself |
| Order.LessAsymmetric | trial.go:55 | two keys never sort before each other |
| Order.PrefixSortsFirst | trial.go:55 | a proper prefix of a key sorts before it (T1 before T10) |
| Order.LeastExists | trial.go:55 | every non-empty key set has a least key, where a scan starts |
| Order.LeastUnique | trial.go:55 | that least key is unique |
| Buckets.EntriesOfIsListing | trial.go:55 | the specified scan result lists every matching key exactly once, ascending, with its stored value |
| Buckets.ListingHeadIsLeast | trial.go:55 | the first entry of an ascending exact listing is the least matching key |
| Buckets.ListingTail | trial.go:55 | dropping that entry leaves an ascending exact listing of the other keys |
| Buckets.ListingIsEntriesOf | trial.go:55 | an ascending exact listing is unique: it equals the specified scan result |
| Buckets.Bucket.Get | trial.go:88-96 | a point read fails only when the store fails. Otherwise it yields the value exactly when the key is present |
| Buckets.Bucket.Put | trial.go:41 | a write replaces the key's value, leaves every other key alone, and changes nothing on failure |
| Buckets.Bucket.Delete | trial.go:125 | a removal drops exactly that key, and changes nothing on failure |
| Buckets.Bucket.PrefixItems | trial.go:55 | a prefix scan yields every key with that prefix, ascending, each with its value |
| Buckets.Bucket.Items | studies.go:69 | a full scan yields every entry of the bucket, ascending |
| Buckets.Bucket.Walk | trial.go:55 | a cursor walk that repeatedly takes the least remaining key produces the specified scan result |
| Keys.StudyKey | studies.go:106 | a study key is `/studies/` followed by the name, which can be read back from the key |
| Keys.TrialsPrefix | trial.go:54 | the trial-listing prefix lies under the study's own subtree `/studies/<s>/` |
| Keys.TrialKey | trial.go:87 | a trial key lies under its study's subtree and under its study's listing prefix |
| Keys.TrialFilesPrefix | trial.go:113 | the alternate file root is outside every study's key |
| Keys.TrialKeyInjective | trial.go:87 | with slash-free study ids, a trial key determines its study and trial |
| Keys.TrialsScopeIsPerStudy | trial.go:54 | a study's trial listing never reaches another study's keys (S1 against S10) |
| Keys.StudyKeyIsNotTrialKey | studies.go:124 | a slash-free study key is never a trial key |
| Keys.TrialKeyAmbiguousWithSlashes | trial.go:87 | ids containing `/` make two different (study, trial) pairs share one key |
| Keys.SegmentsAgree | trial.go:112 | two slash-free segments that both begin a key and are followed by `/` are equal |
| Keys.SiblingSegment | trial.go:112 | a path under sibling segment `t2` is neither `t` nor under `t/` |
| Trial.TrialResource | trial.go:65-73 | the record List builds for one scanned entry: version "1", type "trial", id = key, URL from host and key, data = stored value, no creation time |
| Trial.DeleteRoots | trial.go:111-114 | a key is covered by the delete roots exactly when it starts with the trial key or with the trial's file root |
| Trial.SubtreeRoots | trial.go:111-114 | corrected roots: a key is covered exactly when it starts with the trial key followed by `/` or with the file root followed by `/` |
| Trial.Reached | trial.go:111-123 | the cascade gets through the roots before the first failed scan, and every reached scan succeeded |
| Trial.ReachedUpTo | trial.go:111-123 | when the first i scans succeed and the next fails, the cascade reaches exactly those i roots |
| Trial.CoveredWithin | trial.go:111-114 | a key under a reached root is under one of the roots |
| Trial.CoveredExtend | trial.go:111-114 | coverage by one more root adds exactly the keys under that root |
| Trial.PruneStep | trial.go:115-129 | scanning one more root and removing what it yields gives the store pruned by one more root |
| Trial.CascadeIdempotent | trial.go:111-130 | deleting the same trial twice, under the same failing store operations, leaves the store and the reply of the first delete |
| Trial.FirstScanFailureAborts | trial.go:115-123 | a failed first scan changes nothing and reports an error |
| Trial.SecondScanFailureKeepsFirstRootWork | trial.go:111-123 | the first root is fully pruned before the second is scanned, and a failed second scan leaves every other key unchanged |
| Trial.FailedRemovalDoesNotStopOthers | trial.go:124-129 | when no scan fails, every covered key whose own removal succeeds is gone, whatever other removals fail |
| Trial.DeleteOfT1RemovesT10 | trial.go:112-113 | deleting trial T1 of study S removes trial T10 and file `/files/S/T10/F1` |
| Trial.SubtreeDeleteSparesSiblings | trial.go:112-113 | with separator-bounded roots, a sibling trial's key, its subtree and its files are never covered |
| Trial.TrialController.Post | trial.go:40-45 | the payload is stored under exactly the resource id, overwriting; nothing else changes; a failed write is an error |
| Trial.TrialController.List | trial.go:53-78 | one resource per key under `/studies/<s>/trials`, ascending; version "1", type "trial", id = key, URL = `http://` + host + key, data = stored value; an empty scope gives an empty list, a failed scan an error |
| Trial.TrialController.Get | trial.go:86-99 | reads `/studies/<s>/trials/<t>`: a store error, not found when absent, otherwise the stored bytes unchanged |
| Trial.TrialController.Delete | trial.go:108-133 | the store becomes the input pruned by the reached roots. Uncovered keys keep their values, and no key is added. A success reply means no key under either root remains. The reply is an error exactly when a scan or a removal failed |
| Trial.TrialController.DeleteSubtree | trial.go:108-133 | corrected delete: removes the trial key, then everything under `<trial key>/` and `<file root>/` |
| Trial.TrialController.Cascade | trial.go:111-130 | the two nested loops over roots and scanned keys compute exactly the pruned store and the error reply |
| Resources.Resource | xhub.go:104-112 | the resource record: version, type, id, URL, data and creation time (`Children` is not modelled) |
| Resources.Url | studies.go:83 | a resource's URL: `http://`, then the host, then the id (also trial.go:66) |
| Studies.Lookup | studies.go:78-89 | the data attached to a listed study: present exactly when the payload bucket holds the key, and then the stored value |
| Studies.StudyResource | studies.go:82-91 | the record list builds for one studylist entry: version "1", type "study", id = key, URL from host and key, the looked-up data, created = the entry's timestamp |
| Studies.ListingCovers | studies.go:69-77 | a full listing names every studylist key once, ascending, with its value |
| Studies.StudyController.Post | studies.go:48-58 | both buckets are written under the same id: the timestamp in `studylist` and the payload in `studies`, overwriting. The reply reports only the `studies` write |
| Studies.StudyController.PostChecked | studies.go:48-58 | corrected post: the reply is an error exactly when either write fails, so success means both the payload and the timestamp are stored |
| Studies.StudyController.List | studies.go:69-97 | one resource per studylist entry, in studylist key order. Each has version "1", type "study", id = key, URL = `http://` + host + key, created = the studylist value, and data = the `studies` value at that key or none. The reply is an error exactly when the scan or some lookup fails |
| Studies.StudyController.Attach | studies.go:77-93 | the join loop builds one resource per entry, and flags failure exactly when some lookup fails |
| Studies.StudyController.Get | studies.go:105-116 | reads `/studies/<name>`: a store error, not found when absent, otherwise the stored bytes |
| Studies.StudyController.Delete | studies.go:123-130 | removes only `/studies/<name>` from `studies`. The studylist entry and every trial key of the study stay |
| Scenarios.PostListGet | study_test.go:15-98 | after posting `/studies/test_study`, the list has exactly one item, at `http://localhost:8081/studies/test_study`, and get `test_study` returns the posted payload |
| Scenarios.DeleteKeepsListing | studies.go:78-90 | after deleting a posted study, list still yields it, with its timestamp and no data |
| Scenarios.LostStudylistEntry | studies.go:50-52 | when the studylist write fails, post still succeeds and get finds the payload, but list is empty |
| Scenarios.CheckedPostIsListed | studies.go:48-58 | with the corrected post, a success reply means a later list names the study with its payload and timestamp |
| Scenarios.ListTwoTrials | trial.go:53-75 | trials whose ids differ by a suffix (T1, T10) list shorter id first, for either posting order |
| Scenarios.SubtreeDeleteKeepsSibling | trial.go:108-133 | the corrected delete of trial T1 keeps trial T10 and T10's file |

## Left out

- HTTP is not modelled: routing, `httprouter` parameter extraction, status codes, headers and the server lifecycle. A handler's status becomes the `Reply` outcome.
  - 500 maps to `StoreError`.
  - 404, and the trial handler's 204, map to `NotFound`.
  - 200 and 201 map to `Ok`.
- The study routes declare the parameter `:study`, but the study get and delete handlers read `name`. The model passes the name directly.
- JSON decoding and encoding is not modelled. Payloads are opaque bytes and a resource's id arrives as a string. The study post's decode error, which does not stop the handler, is therefore not modelled.
- Response-writing order is not modelled. The study handlers go on after reporting an error (a failed list still writes its JSON body; get writes 404 after 500). The model keeps the first error as the outcome.
- The bucket library and bolt internals are not modelled: transactions, the on-disk format and bucket creation (`log.Fatalf` on failure). Store failures come in as the `Faults` parameter. Bolt's refusal of an empty key is one such failure.
- Keys are strings, not byte slices. The character order agrees with bolt's byte order on UTF-8 keys.
- `time.Now().Format(time.RFC3339Nano)` is not modelled. The timestamp is the `now` parameter of the study post, and its RFC 3339 format (section 5.6 of RFC 3339) is not checked.
- Concurrency between requests is not modelled, including the race between a cascading delete and concurrent writes.
- The resource's `Children` field is not modelled. No handler sets it.
- `FileController` and the test-server helpers are not part of this model.

## Findings

| source | as written | input that shows it | evidently intended | confidence | as-written member | corrected member |
|---|---|---|---|---|---|---|
| trial.go:112-113 | the delete roots `/studies/<s>/trials/<t>` and `/files/<s>/<t>` have no separator after the trial id | deleting trial `T1` of study `S` also deletes `/studies/S/trials/T10` and `/files/S/T10/F1` | delete the trial key itself and only keys under `<trial key>/` and `/files/<s>/<t>/` | high (not executed) | Trial.DeleteOfT1RemovesT10 | Trial.SubtreeDeleteSparesSiblings |
| studies.go:50 | `if c.studylist.Put(key, now); err != nil` tests the stale decode error, so a failed studylist write is never reported | a post whose studylist write fails replies success, but list omits the study | report a failed studylist write like a failed payload write | high (not executed) | Scenarios.LostStudylistEntry | Studies.StudyController.PostChecked |
