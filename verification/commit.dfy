/**
 * The two commit passes of a transaction. `CommitToDisk` writes each buffered mutation
 * as a Delta record at the commit timestamp; `CommitToMemory` asks each touched posting
 * list to fold its buffered mutation in, retrying while the list reports contention.
 * The posting-list cache, the writer and the fold are supplied as functions.
 */
module Commit {
  import opened Types
  import opened Records
  import opened Reader
  import opened Transactions

  /** What the commit path sees of an in-memory posting list: the mutations buffered per start timestamp. */
  datatype MemList = MemList(buffered: map<nat, PostingList>)

  /** `GetMutation(startTs)`: the transaction's buffered delta, or nothing. */
  function GetMutation(l: MemList, startTs: nat): Option<PostingList> {
    if startTs in l.buffered then Some(l.buffered[startTs]) else None
  }

  /** One `SetAt` call: a value written under a key, with user meta, at a version. */
  datatype Write = Write(key: Key, value: PostingList, meta: UserMeta, version: nat)

  /** The store record a write becomes: live, without a discard marker. */
  function AsRecord(w: Write): Record {
    Record(w.key, w.version, w.meta, false, false, Decoded(w.value))
  }

  // ---------------------------------------------------------------------------
  // CommitToDisk
  // ---------------------------------------------------------------------------

  /** The write one key contributes: its buffered mutation as a Delta at `commitTs`, if it has one. */
  function WritesFor(key: Key, startTs: nat, commitTs: nat, get: Key -> Result<MemList>): (ws: seq<Write>)
    ensures |ws| <= 1
    ensures |ws| == 1 <==> get(key).Ok? && GetMutation(get(key).value, startTs).Some?
    ensures |ws| == 1 ==> ws[0] == Write(key, GetMutation(get(key).value, startTs).value, DeltaPosting, commitTs)
  {
    match get(key)
    case Err(_) => []
    case Ok(l) =>
      match GetMutation(l, startTs)
      case None => []
      case Some(data) => [Write(key, data, DeltaPosting, commitTs)]
  }

  /** The writes a commit issues for `keys`, in order, when nothing fails. */
  function Planned(keys: seq<Key>, startTs: nat, commitTs: nat, get: Key -> Result<MemList>): seq<Write>
    decreases |keys|
  {
    if |keys| == 0 then []
    else Planned(keys[..|keys| - 1], startTs, commitTs, get) + WritesFor(keys[|keys| - 1], startTs, commitTs, get)
  }

  /** Committing `key` to disk fails: fetching its list fails, or the writer rejects its write. */
  predicate DiskFails(key: Key, startTs: nat, commitTs: nat, get: Key -> Result<MemList>, setAt: Write -> Option<Error>) {
    var ws := WritesFor(key, startTs, commitTs, get);
    get(key).Err? || (|ws| == 1 && setAt(ws[0]).Some?)
  }

  /** The error a failing key reports. */
  function DiskError(key: Key, startTs: nat, commitTs: nat, get: Key -> Result<MemList>, setAt: Write -> Option<Error>): Error
    requires DiskFails(key, startTs, commitTs, get, setAt)
  {
    if get(key).Err? then get(key).error else setAt(WritesFor(key, startTs, commitTs, get)[0]).value
  }

  /** Every write in `ws` is a Delta at `commitTs` for one of `keys`, carrying that key's buffered mutation. */
  predicate CarriesMutations(ws: seq<Write>, keys: seq<Key>, startTs: nat, commitTs: nat, get: Key -> Result<MemList>) {
    forall j | 0 <= j < |ws| ::
      && ws[j].key in keys && ws[j].meta == DeltaPosting && ws[j].version == commitTs
      && get(ws[j].key).Ok? && GetMutation(get(ws[j].key).value, startTs) == Some(ws[j].value)
  }

  /** Every planned write is a Delta at `commitTs` for one of the keys, carrying that key's buffered mutation. */
  lemma {:induction false} PlannedWritesShape(keys: seq<Key>, startTs: nat, commitTs: nat, get: Key -> Result<MemList>)
    ensures CarriesMutations(Planned(keys, startTs, commitTs, get), keys, startTs, commitTs, get)
    decreases |keys|
  {
    if |keys| > 0 {
      var front := keys[..|keys| - 1];
      PlannedWritesShape(front, startTs, commitTs, get);
      var pre := Planned(front, startTs, commitTs, get);
      var tail := WritesFor(keys[|keys| - 1], startTs, commitTs, get);
      var ws := Planned(keys, startTs, commitTs, get);
      assert ws == pre + tail;
      forall j | 0 <= j < |ws|
        ensures ws[j].key in keys && ws[j].meta == DeltaPosting && ws[j].version == commitTs
        ensures get(ws[j].key).Ok? && GetMutation(get(ws[j].key).value, startTs) == Some(ws[j].value)
      {
        if j < |pre| {
          assert ws[j] == pre[j];
        } else {
          assert ws[j] == tail[0];
        }
      }
    }
  }

  /** Each of `keys` is written in `ws` exactly when its list holds a buffered mutation at `startTs`. */
  predicate CoversMutatedKeys(ws: seq<Write>, keys: seq<Key>, startTs: nat, get: Key -> Result<MemList>) {
    forall k | k in keys ::
      (get(k).Ok? && GetMutation(get(k).value, startTs).Some?) <==> exists j | 0 <= j < |ws| :: ws[j].key == k
  }

  /** No key is written twice in `ws`. */
  predicate DistinctKeys(ws: seq<Write>) {
    forall i, j | 0 <= i < j < |ws| :: ws[i].key != ws[j].key
  }

  /** A key gets a planned write exactly when its list holds a buffered mutation at `startTs`. */
  lemma {:induction false} PlannedWritesCover(keys: seq<Key>, startTs: nat, commitTs: nat, get: Key -> Result<MemList>)
    ensures CoversMutatedKeys(Planned(keys, startTs, commitTs, get), keys, startTs, get)
    decreases |keys|
  {
    if |keys| > 0 {
      var front := keys[..|keys| - 1];
      var last := keys[|keys| - 1];
      PlannedWritesCover(front, startTs, commitTs, get);
      PlannedWritesShape(front, startTs, commitTs, get);
      var pre := Planned(front, startTs, commitTs, get);
      var ws := Planned(keys, startTs, commitTs, get);
      var tail := WritesFor(last, startTs, commitTs, get);
      assert ws == pre + tail;
      assert forall j | 0 <= j < |tail| :: tail[j].key == last;
      forall k | k in keys
        ensures (get(k).Ok? && GetMutation(get(k).value, startTs).Some?) <==> exists j | 0 <= j < |ws| :: ws[j].key == k
      {
        if k in front {
          if exists j | 0 <= j < |pre| :: pre[j].key == k {
            var j :| 0 <= j < |pre| && pre[j].key == k;
            assert ws[j].key == k;
          }
        } else {
          assert k == last;
          if get(k).Ok? && GetMutation(get(k).value, startTs).Some? {
            assert ws[|pre|].key == k;
          }
        }
      }
    }
  }

  /** Over duplicate-free keys no key is written twice. */
  lemma {:induction false} PlannedWritesDistinct(keys: seq<Key>, startTs: nat, commitTs: nat, get: Key -> Result<MemList>)
    requires NoDup(keys)
    ensures DistinctKeys(Planned(keys, startTs, commitTs, get))
    decreases |keys|
  {
    if |keys| > 0 {
      var front := keys[..|keys| - 1];
      var last := keys[|keys| - 1];
      PlannedWritesDistinct(front, startTs, commitTs, get);
      PlannedWritesShape(front, startTs, commitTs, get);
      var pre := Planned(front, startTs, commitTs, get);
      var tail := WritesFor(last, startTs, commitTs, get);
      assert Planned(keys, startTs, commitTs, get) == pre + tail;
      assert NoDup(front) by {
        assert forall i | 0 <= i < |front| :: front[i] == keys[i];
      }
      assert last !in front;
      assert |tail| <= 1 && forall j | 0 <= j < |tail| :: tail[j].key == last;
    }
  }

  /** One snapshot of a key set, in the arbitrary order Go's map iteration takes. */
  method Snapshot(s: set<Key>) returns (keys: seq<Key>)
    ensures Enumerates(keys, s)
  {
    keys := [];
    var todo := s;
    while todo != {}
      invariant todo <= s
      invariant NoDup(keys)
      invariant forall i | 0 <= i < |keys| :: keys[i] in s && keys[i] !in todo
      invariant forall x | x in s && x !in todo :: x in keys
      decreases todo
    {
      var k :| k in todo;
      keys := keys + [k];
      todo := todo - {k};
    }
  }

  /**
   * `CommitToDisk`. With `commitTs == 0` nothing is written and no error is returned.
   * Otherwise the written keys are snapshotted into `keys` and visited in that order:
   * with no error, every key was fetched and the log is exactly the planned writes;
   * on an error, the first failing key's error is returned and only the keys before it
   * were written.
   */
  method CommitToDisk(tx: Txn, commitTs: nat, get: Key -> Result<MemList>, setAt: Write -> Option<Error>)
    returns (keys: seq<Key>, log: seq<Write>, err: Option<Error>)
    ensures commitTs == 0 ==> keys == [] && log == [] && err == None
    ensures commitTs != 0 ==> Enumerates(keys, tx.deltas)
    ensures err.None? ==>
              && (forall i | 0 <= i < |keys| :: !DiskFails(keys[i], tx.startTs, commitTs, get, setAt))
              && log == Planned(keys, tx.startTs, commitTs, get)
    ensures err.Some? ==>
              exists j | 0 <= j < |keys| ::
                && DiskFails(keys[j], tx.startTs, commitTs, get, setAt)
                && err.value == DiskError(keys[j], tx.startTs, commitTs, get, setAt)
                && (forall i | 0 <= i < j :: !DiskFails(keys[i], tx.startTs, commitTs, get, setAt))
                && log == Planned(keys[..j], tx.startTs, commitTs, get)
  {
    if commitTs == 0 {
      return [], [], None;
    }
    keys := Snapshot(tx.deltas);
    log := [];
    var i := 0;
    while i < |keys|
      invariant 0 <= i <= |keys|
      invariant forall j | 0 <= j < i :: !DiskFails(keys[j], tx.startTs, commitTs, get, setAt)
      invariant log == Planned(keys[..i], tx.startTs, commitTs, get)
    {
      var key := keys[i];
      assert keys[..i + 1][..i] == keys[..i];
      match get(key)
      case Err(e) =>
        return keys, log, Some(e);
      case Ok(plist) =>
        var data := GetMutation(plist, tx.startTs);
        if data.Some? {
          var w := Write(key, data.value, DeltaPosting, commitTs);
          var e := setAt(w);
          if e.Some? {
            return keys, log, e;
          }
          log := log + [w];
        }
      i := i + 1;
    }
    assert keys[..i] == keys;
    err := None;
  }

  /**
   * A committed delta is what a later read sees: the record written for `w`, read ahead
   * of an older history, leaves the stamped mutation at `mutationMap[commitTs]`.
   */
  lemma CommittedDeltaIsRead(w: Write, history: seq<Record>)
    requires w.meta == DeltaPosting
    requires forall i | 0 <= i < |history| :: history[i].version < w.version
    ensures var r := ReadPostingList(w.key, [AsRecord(w)] + history);
            && r.Ok? == Walk(w.key, history, EmptyList(w.key).(mutationMap := map[w.version := Stamp(w.value, w.version)])).Ok?
            && (r.Ok? ==> w.version in r.value.mutationMap && r.value.mutationMap[w.version] == Stamp(w.value, w.version))
  {
    var recs := [AsRecord(w)] + history;
    assert recs[1..] == history;
    var next := EmptyList(w.key).(mutationMap := map[w.version := Stamp(w.value, w.version)]);
    WalkKeepsEntry(w.key, history, next, w.version);
  }

  // ---------------------------------------------------------------------------
  // CommitToMemory
  // ---------------------------------------------------------------------------

  /** What one `CommitMutation` attempt reports. */
  datatype Verdict = Committed | Retry | Failed(error: Error)

  /** One `CommitMutation(startTs, commitTs)` call on `key`'s list, the `attempt`-th for that key. */
  datatype Attempt = Attempt(key: Key, startTs: nat, commitTs: nat, attempt: nat)

  /** How `CommitToMemory` ended; `OutOfRetries` is the model's bound on the source's unbounded retrying. */
  datatype MemOutcome = Done | Stopped(error: Error) | OutOfRetries

  /** Attempt `n` on `key` fetched the list and was told to retry. */
  predicate Retried(key: Key, n: nat, startTs: nat, commitTs: nat,
                    fetch: (Key, nat) -> Option<Error>, fold: Attempt -> Verdict) {
    fetch(key, n).None? && fold(Attempt(key, startTs, commitTs, n)).Retry?
  }

  /** Attempts `0` to `n - 1` on `key` were all told to retry. */
  predicate RetriedThrough(key: Key, n: nat, startTs: nat, commitTs: nat,
                           fetch: (Key, nat) -> Option<Error>, fold: Attempt -> Verdict) {
    forall m | 0 <= m < n :: Retried(key, m, startTs, commitTs, fetch, fold)
  }

  /** `key` was committed on attempt `n`, after `n` retries. */
  predicate CommittedAfter(key: Key, n: nat, startTs: nat, commitTs: nat,
                           fetch: (Key, nat) -> Option<Error>, fold: Attempt -> Verdict) {
    && RetriedThrough(key, n, startTs, commitTs, fetch, fold)
    && fetch(key, n).None?
    && fold(Attempt(key, startTs, commitTs, n)).Committed?
  }

  /** `key` failed with `e` on attempt `n`, after `n` retries: the fetch or the fold reported it. */
  predicate FailedAfter(key: Key, n: nat, e: Error, startTs: nat, commitTs: nat,
                        fetch: (Key, nat) -> Option<Error>, fold: Attempt -> Verdict) {
    && RetriedThrough(key, n, startTs, commitTs, fetch, fold)
    && (fetch(key, n) == Some(e) || (fetch(key, n).None? && fold(Attempt(key, startTs, commitTs, n)) == Failed(e)))
  }

  /** The total of a sequence of counts, such as the retries spent on each key. */
  function Sum(xs: seq<nat>): nat
    decreases |xs|
  {
    if |xs| == 0 then 0 else Sum(xs[..|xs| - 1]) + xs[|xs| - 1]
  }

  /** Appending a count adds it to the total. */
  lemma SumSnoc(xs: seq<nat>, x: nat)
    ensures Sum(xs + [x]) == Sum(xs) + x
  {
  }

  /** How the retry loop for one key ended. */
  datatype KeyOutcome = KeyCommitted | KeyFailed(error: Error) | KeyOutOfRetries

  /**
   * The inner loop of `CommitToMemory` for one key: fetch the list and fold, again while
   * the fold says retry, each retry spending one unit of `fuel`. `n` counts the retries
   * spent; `left` is what remains of the budget.
   */
  method CommitKey(key: Key, startTs: nat, commitTs: nat, fetch: (Key, nat) -> Option<Error>,
                   fold: Attempt -> Verdict, fuel: nat)
    returns (n: nat, left: nat, out: KeyOutcome)
    ensures out.KeyCommitted? ==> CommittedAfter(key, n, startTs, commitTs, fetch, fold) && n + left == fuel
    ensures out.KeyFailed? ==> FailedAfter(key, n, out.error, startTs, commitTs, fetch, fold) && n <= fuel
    ensures out.KeyOutOfRetries? ==> RetriedThrough(key, n, startTs, commitTs, fetch, fold) && n == fuel + 1
  {
    n := 0;
    left := fuel;
    while true
      invariant RetriedThrough(key, n, startTs, commitTs, fetch, fold)
      invariant n + left == fuel
      decreases left
    {
      var e := fetch(key, n);
      if e.Some? {
        return n, left, KeyFailed(e.value);
      }
      var v := fold(Attempt(key, startTs, commitTs, n));
      match v
      case Committed =>
        return n, left, KeyCommitted;
      case Failed(err) =>
        return n, left, KeyFailed(err);
      case Retry =>
        if left == 0 {
          return n + 1, 0, KeyOutOfRetries;
        }
        left := left - 1;
        n := n + 1;
    }
  }

  /**
   * `CommitToMemory`. Keys of `deltas` are visited in set-iteration order (`keys`); each is
   * retried while the fold says so, and `tries[i]` counts the retries spent on `keys[i]`,
   * drawn from a budget of `budget` retries in all.
   * `Done`: every written key was committed at `(startTs, commitTs)`.
   * `Stopped(e)`: every key before the last was committed, and the last failed with `e`.
   * `OutOfRetries`: every key before the last was committed, the last saw only retries,
   * and exactly one retry more than the budget was asked for.
   */
  method CommitToMemory(tx: Txn, commitTs: nat, fetch: (Key, nat) -> Option<Error>,
                        fold: Attempt -> Verdict, budget: nat)
    returns (keys: seq<Key>, tries: seq<nat>, out: MemOutcome)
    ensures |tries| == |keys| && NoDup(keys)
    ensures forall i | 0 <= i < |keys| :: keys[i] in tx.deltas
    ensures out.Done? ==>
              && Enumerates(keys, tx.deltas)
              && (forall i | 0 <= i < |keys| :: CommittedAfter(keys[i], tries[i], tx.startTs, commitTs, fetch, fold))
              && Sum(tries) <= budget
    ensures !out.Done? ==>
              && |keys| > 0
              && (forall i | 0 <= i < |keys| - 1 :: CommittedAfter(keys[i], tries[i], tx.startTs, commitTs, fetch, fold))
    ensures out.Stopped? ==>
              FailedAfter(keys[|keys| - 1], tries[|keys| - 1], out.error, tx.startTs, commitTs, fetch, fold)
    ensures out.OutOfRetries? ==>
              && RetriedThrough(keys[|keys| - 1], tries[|keys| - 1], tx.startTs, commitTs, fetch, fold)
              && Sum(tries) == budget + 1
  {
    keys := [];
    tries := [];
    var fuel := budget;
    var todo := tx.deltas;
    while todo != {}
      invariant todo <= tx.deltas
      invariant |tries| == |keys| && NoDup(keys)
      invariant forall i | 0 <= i < |keys| :: keys[i] in tx.deltas && keys[i] !in todo
      invariant forall x | x in tx.deltas && x !in todo :: x in keys
      invariant forall i | 0 <= i < |keys| :: CommittedAfter(keys[i], tries[i], tx.startTs, commitTs, fetch, fold)
      invariant Sum(tries) + fuel == budget
      decreases todo
    {
      var key :| key in todo;
      var n, left, res := CommitKey(key, tx.startTs, commitTs, fetch, fold, fuel);
      SumSnoc(tries, n);
      if !res.KeyCommitted? {
        keys, tries := keys + [key], tries + [n];
        out := if res.KeyFailed? then Stopped(res.error) else OutOfRetries;
        return;
      }
      keys := keys + [key];
      tries := tries + [n];
      fuel := left;
      todo := todo - {key};
    }
    out := Done;
  }
}
