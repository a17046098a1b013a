# MVCC posting lists: reconstruction and transaction commit

A Dafny model of the multi-version concurrency control layer of a graph database's
posting lists (`posting/mvcc.go`). A posting list is the ordered set of edges or values
for one subject–predicate key. The store keeps every version of a key as an immutable
record: either a *Complete* snapshot or a *Delta* to be layered on top of older ones.

The model covers two parts.

- **Reconstruction** (module `Reader`). `ReadPostingList` walks one key's records from newest
  to oldest. It stops at a deleted or expired record, or at a record of another key, without
  folding it. A Complete record becomes the base snapshot and sets `minTs`, and the walk
  ends there. A Delta record is stamped with its version and stored in `mutationMap` under
  that version. A record with neither meta bit is fatal. A `DiscardEarlierVersions` marker
  ends the walk right after its record is folded. `getNew` first does a point lookup:
  - a missing key, or a deleted newest version, gives the empty list;
  - a Complete newest version is decoded directly;
  - anything else falls back to the walk.

  Besides the walk as written, the module gives a declarative reference: `StopsAt` says where
  the walk stops and `Assemble` builds the list from the folded records. Lemmas prove that the
  walk and the reference agree on every input whose folded records descend in version.
- **Transaction bookkeeping** (modules `Transactions`, `Commit`, `Base36`). These model the
  abort flag, `AddKeys`, and `Fill` with base-36 fingerprint text. They also model
  `CommitToDisk`: one Delta write per key that has a buffered mutation, stopping at the first
  error. And `CommitToMemory`: a per-key retry loop around the posting list's `CommitMutation`.

Files: `types.dfy` (Option, bytes, keys, duplicate-free sequences), `records.dfy` (records,
decoded posting lists, the reconstructed `List`, errors), `reader.dfy`, `base36.dfy`,
`txn.dfy`, `commit.dfy`.

Modelling choices:
- The badger iterator is a `seq<Record>`, newest first. The point lookup is `PointGet` over the
  same sequence. An injected `fault` stands for a lookup I/O error.
- The `BitCompletePosting` and `BitDeltaPosting` user-meta bits are two booleans. Their numeric
  values are defined in `posting/list.go`, which is not part of this model.
- A record's value is either `Decoded(pl)` or `Garbled`; protobuf decoding itself is abstract.
  An empty value decodes to the empty posting list. An undecodable Complete record is the error
  `unmarshalOrCopy` returns. An undecodable Delta record is fatal, because the source wraps that
  decode in `x.Check`.
- Go's map iteration order is arbitrary. `AppendAbsent` and `Fill` pick set elements with `:|`;
  `Snapshot`, `CommitToDisk` and `CommitToMemory` do too and also return the order they took as `keys`.
- Five collaborators are function-typed parameters:
  - the fingerprint hash (`farm.Fingerprint64`);
  - the key parser's predicate (`x.Parse(key).Attr`);
  - the posting-list cache (`tx.Get`);
  - the writer's verdict on each `SetAt`;
  - the `CommitMutation` fold.

  The fetch and fold used by `CommitToMemory` are indexed by the attempt number on each key.
- `strconv.FormatUint(x, 36)` is modelled concretely. Its parser is the proved inverse, so
  distinct fingerprints give distinct text.
- Locks and atomics become plain fields of immutable values.
- The walk tests deleted/expired before the key comparison, as the code does. Both tests end the walk the same way, so no lemma can tell the two orders apart.
- Timestamps are unbounded naturals. No arithmetic is done on them, so `uint64` wrap-around
  never arises.

Details of the code the model follows:
- The walk folds a `DiscardEarlierVersions` record and then stops (`posting/mvcc.go:215-217`).
- `Fill` only skips an entry that is already present (`posting/mvcc.go:73`, `79`), so a
  duplicate already in the incoming context stays. The no-duplicates guarantee therefore holds
  for duplicate-free input.
- `FatalUndecodableDelta` and `FatalUnexpectedMeta` stand for `x.Check` and `x.Fatalf`
  (`posting/mvcc.go:199`, `213`), which end the process. The model returns them as `Err` values
  so the lemmas can name them; no caller in the source ever receives them.

## Model

| member | source | states |
|---|---|---|
| Reader.Walk | posting/mvcc.go:176-219 | The walk over the iterator keeps the list's key and never removes a mutation-map key already present |
| Reader.ReadPostingList | posting/mvcc.go:169-221 | Reconstruction from an empty list yields a list for the requested key |
| Reader.StopIndex | posting/mvcc.go:176-218 | Every record sequence has a stop point: a live prefix in which only the last record may be terminal (Complete or discard marker), ending at the end of the records, before a non-live record, or right after a terminal record |
| Reader.StopsAtUnique | posting/mvcc.go:176-218 | The stop point is unique |
| Reader.Deltas | posting/mvcc.go:196-207 | In the reference mutation map every folded Delta-without-Complete record sits at its version, holding its payload stamped with that version |
| Reader.DeltasKeys | posting/mvcc.go:196-207 | The reference mutation map has no other keys: a version is a key iff some folded Delta-without-Complete record carries it |
| Reader.Assemble | posting/mvcc.go:186-207 | The reference list takes the folded Complete record (if any) as base with `minTs` its version and every delta key above it; with no Complete record `minTs` is 0 and the base is empty |
| Reader.WalkHeadSnapshot | posting/mvcc.go:186-193 | A Complete record at the head of the walk (also when its Delta bit is set) is the only record folded: it is the snapshot at its version, and no delta is added |
| Reader.WalkHeadDiscard | posting/mvcc.go:196-217 | A discard-marked Delta at the head of the walk is folded and then the walk ends |
| Reader.WalkMatchesAssemble | posting/mvcc.go:176-219 | From an accumulator with no snapshot, the walk over well-formed, version-descending records returns the reference assembly of exactly the records up to the stop point, on top of the accumulator's map |
| Reader.WalkFailsAtFirstBad | posting/mvcc.go:186-214 | The walk fails with the first folded record's error: an undecodable snapshot, a fatal undecodable delta, or a fatal record with neither meta bit |
| Reader.ReadWellFormed | posting/mvcc.go:169-221 | When the records up to the stop point are well formed and descend in version, the read returns exactly their reference assembly |
| Reader.ReadPostingListExact | posting/mvcc.go:169-221 | Given the stop point `n`, the read succeeds iff the first `n` records are well formed, then equals the reference assembly of those `n` records, and otherwise returns the error of a bad one among them |
| Reader.SnapshotBoundsDeltas | posting/mvcc.go:186-193 | When the walk ends on a Complete record `minTs` is its version and every mutation-map key is strictly newer; with no Complete record folded `minTs` stays 0 and the base stays empty |
| Reader.WalkIgnoresPastStop | posting/mvcc.go:178-217 | When a record stopped the walk, replacing everything the walk never reads by any other records leaves the result unchanged: after a Complete or discard record that is everything past it, after a non-live record everything past that record |
| Reader.ReadIgnoresPastStop | posting/mvcc.go:178-217 | The read is decided by the records it reads: the folded ones, and the non-live record that stopped it if any; nothing after a terminal record matters |
| Reader.WalkKeepsEntry | posting/mvcc.go:206-206 | A mutation-map entry survives the rest of the walk unless a later record carries the same version |
| Reader.KeyStart | posting/mvcc.go:244-246 | Seeking to a key finds its first record: no earlier record has the key |
| Reader.PointGet | posting/mvcc.go:231-237 | The point lookup returns the key's newest record, reports not found exactly when the key is absent or its newest record is deleted or expired (even if older live versions exist), and passes an I/O error through |
| Reader.GetNew | posting/mvcc.go:223-251 | `getNew` returns the lookup's I/O error unchanged, the empty list for a key absent from the store, and otherwise a list for the requested key |
| Reader.GetNewFastPaths | posting/mvcc.go:231-241 | A missing key or a deleted newest version gives the empty list (`minTs` 0, no deltas, no error); a decodable Complete newest version gives that snapshot at its version with no deltas |
| Reader.GetNewAgreesWithRead | posting/mvcc.go:238-248 | Whenever the lookup does not fail, `getNew` (fast paths included) equals `ReadPostingList` over the key's iterator |
| Reader.ScenarioSnapshotUnderDeltas | posting/mvcc.go:186-218 | Complete at 100 under Deltas at 101 and 105 reads as `minTs` 100 with mutation-map keys exactly {101, 105} |
| Reader.ScenarioDeletedNewest | posting/mvcc.go:231-234 | A key whose newest version is deleted reads as the empty list with no error |
| Records.EmptyList | posting/mvcc.go:170-173 | A fresh list has the key, an empty snapshot, `minTs` 0 and no deltas |
| Records.Stamp | posting/mvcc.go:200-205 | A decoded delta and every posting in it carry the record's version as commit timestamp; postings are otherwise unchanged |
| Base36.FormatUint36 | posting/mvcc.go:72-72 | Fingerprint text is non-empty base-36 digits with no leading zero except for "0" |
| Base36.ParseFormat | posting/mvcc.go:72-72 | Parsing the base-36 text of a number gives the number back |
| Base36.FormatParse | posting/mvcc.go:72-72 | Formatting the value of canonical base-36 text gives the text back |
| Base36.FormatInjective | posting/mvcc.go:72-72 | Distinct numbers have distinct base-36 text |
| Transactions.ShouldAbort | posting/mvcc.go:44-49 | An absent transaction never aborts; a present one aborts exactly when its flag is set |
| Transactions.SetAbort | posting/mvcc.go:40-42 | After `SetAbort` the transaction reports that it must abort, and its timestamp and key sets are unchanged |
| Transactions.SetAbortIdempotent | posting/mvcc.go:40-42 | Setting the abort flag twice is the same as setting it once |
| Transactions.AddKeys | posting/mvcc.go:51-62 | `key` always joins `deltas`; `conflictKey` joins `conflicts` iff non-empty; the sets never shrink and gain nothing else |
| Transactions.AddKeysIdempotent | posting/mvcc.go:51-62 | Calling `AddKeys` twice with the same arguments equals calling it once, so set sizes do not change |
| Transactions.AppendAbsent | posting/mvcc.go:68-82 | Appending with a membership check only appends; afterwards every element's image is present, each appended entry is new, comes from the set and appears once |
| Transactions.Fill | posting/mvcc.go:64-83 | `Fill` sets `StartTs` and only appends; every conflict key's base-36 fingerprint is in `Keys` and every written key's predicate in `Preds`; appended entries come from those sets and were absent; duplicate-free inputs stay duplicate-free |
| Transactions.DistinctFingerprintsDistinctText | posting/mvcc.go:72-74 | Conflict keys with different fingerprints are reported as different strings |
| Commit.Snapshot | posting/mvcc.go:95-100 | Copying the `deltas` set into a slice lists each key exactly once |
| Commit.WritesFor | posting/mvcc.go:108-116 | A key contributes one write iff its list is fetched and holds a buffered mutation at `StartTs`; that write is the mutation, tagged as a Delta, at the commit timestamp |
| Commit.PlannedWritesShape | posting/mvcc.go:107-119 | Every write a commit plans is a Delta at the commit timestamp for one of the keys, carrying that key's buffered mutation |
| Commit.PlannedWritesCover | posting/mvcc.go:107-119 | A key gets a planned write iff its list holds a buffered mutation at `StartTs`; keys with a nil mutation are skipped |
| Commit.PlannedWritesDistinct | posting/mvcc.go:107-119 | Over a duplicate-free key snapshot no key is written twice |
| Commit.CommitToDisk | posting/mvcc.go:91-121 | `commitTs` 0 writes nothing and returns no error; otherwise every key of `deltas` is visited once, a clean run issues exactly the planned writes, and an error is the first failing key's, with only the keys before it written |
| Commit.CommittedDeltaIsRead | posting/mvcc.go:196-206 | A Delta record written at the commit timestamp, read ahead of older history, puts its stamped mutation at `mutationMap[commitTs]` whenever the read succeeds |
| Commit.CommitKey | posting/mvcc.go:133-148 | One key's retry loop ends committed after its attempts so far were all retries, or fails with the fetch's or fold's error, or has spent one retry more than its budget |
| Commit.CommitToMemory | posting/mvcc.go:123-151 | Success means `CommitMutation(StartTs, commitTs)` committed for every written key after only retries; any other error stops at the current key with that error, every earlier key committed |

## Left out

- Commit.CommitToMemory: the source retries `ErrRetry` without bound and sleeps 5 ms between attempts. The model bounds the total number of retries by a budget and reports `OutOfRetries` when it is spent, an outcome the source never produces. The sleep is timing and is not modelled.
- Reader.GetNew: on an error from the lookup or from an undecodable Complete newest version the source returns `l` with the error: the fresh list at `posting/mvcc.go:236`, and at `posting/mvcc.go:250` a list whose `minTs` is already the record's version (line 240) and whose `plist` is whatever the failed unmarshal left. The model returns only the error. On the walk path the source returns no list with an error, as the model does.
- `estimatedSize`, `calculateSize`, the `stats.Record` call and `glog` logging are size accounting and observability. `calculateSize` is defined outside `posting/mvcc.go` and is not part of this model.
- Locks, `atomic` loads and stores, and the exclusive ownership of the key buffer are concurrency concerns; values here are immutable.
- Badger's iterator, transactions and `item.Value` callbacks are replaced by a record sequence. An I/O error while reading a record's value is not modelled. A lookup error is, through `fault`.
- Protobuf `Unmarshal` and `unmarshalOrCopy` are abstracted to `Decoded`/`Garbled` payloads.
- `farm.Fingerprint64`, `x.Parse` and `x.TxnWriter.SetAt` are foreign code and are passed in as functions. `tx.Get` and the list's `GetMutation`/`CommitMutation` are defined outside `posting/mvcc.go` and are modelled only as these inputs.
- `ErrTsTooOld` is declared in this file but none of the modelled functions uses it.
- `AddKeys` re-creates both maps when either is nil. Both start nil and only `AddKeys` fills them, so the model represents a nil map as an empty set.
