/**
 * Reconstruction of a posting list from the versioned store: the newest-to-oldest
 * walk of `ReadPostingList` and the point-lookup fast path of `getNew`, together
 * with a declarative reference (where the walk stops, what it assembles) and the
 * lemmas that tie the two together.
 */
module Reader {
  import opened Types
  import opened Records

  /** A record the walk may fold: neither deleted nor expired, and of the target key. */
  predicate Live(key: Key, r: Record) {
    !r.deletedOrExpired && r.key == key
  }

  /** Folding this record ends the walk: a Complete snapshot, or a discard marker. */
  predicate Terminal(r: Record) {
    r.meta.complete || r.discardEarlier
  }

  /** A record the walk can fold without failing: some meta bit set, and a decodable value. */
  predicate WellFormed(r: Record) {
    (r.meta.complete || r.meta.delta) && r.payload.Decoded?
  }

  /** A Delta record that is not also Complete: it lands in the mutation map. */
  predicate PlainDelta(r: Record) {
    !r.meta.complete && r.meta.delta
  }

  /** Versions strictly decrease along `recs`, as the store yields one key's history. */
  predicate Descending(recs: seq<Record>) {
    forall i, j | 0 <= i < j < |recs| :: recs[i].version > recs[j].version
  }

  /** What a record's value decodes to; an undecodable value never reaches a built list. */
  function Content(r: Record): PostingList {
    match r.payload
    case Decoded(pl) => pl
    case Garbled => EmptyPostingList
  }

  /** The error folding an ill-formed record raises. */
  function ErrorOf(r: Record): Error {
    if r.meta.complete then UndecodableSnapshot
    else if r.meta.delta then FatalUndecodableDelta
    else FatalUnexpectedMeta(r.meta)
  }

  // ---------------------------------------------------------------------------
  // The walk, as the source performs it
  // ---------------------------------------------------------------------------

  /**
   * One step of `ReadPostingList`'s loop per record of `recs`, folding into `l`.
   * The accumulated mutation map only ever grows, and the key is kept.
   */
  function Walk(key: Key, recs: seq<Record>, l: List): (r: Result<List>)
    ensures r.Ok? ==> r.value.key == l.key
    ensures r.Ok? ==> l.mutationMap.Keys <= r.value.mutationMap.Keys
    decreases |recs|
  {
    if |recs| == 0 then Ok(l)
    else
      var item := recs[0];
      if item.deletedOrExpired then Ok(l)
      else if item.key != key then Ok(l)
      else if item.meta.complete then
        match item.payload
        case Garbled => Err(UndecodableSnapshot)
        case Decoded(pl) => Ok(l.(plist := pl, minTs := item.version))
      else if item.meta.delta then
        match item.payload
        case Garbled => Err(FatalUndecodableDelta)
        case Decoded(pl) =>
          var next := l.(mutationMap := l.mutationMap[item.version := Stamp(pl, item.version)]);
          if item.discardEarlier then Ok(next) else Walk(key, recs[1..], next)
      else Err(FatalUnexpectedMeta(item.meta))
  }

  /** `ReadPostingList`: the walk over the iterator's records, starting from an empty list. */
  function ReadPostingList(key: Key, recs: seq<Record>): (r: Result<List>)
    ensures r.Ok? ==> r.value.key == key
  {
    Walk(key, recs, EmptyList(key))
  }

  // ---------------------------------------------------------------------------
  // The store's point lookup and key iterator
  // ---------------------------------------------------------------------------

  /** Index of the newest record of `key` in `store`, or `|store|` when there is none. */
  function KeyStart(store: seq<Record>, key: Key): (i: nat)
    ensures i <= |store|
    ensures forall j | 0 <= j < i :: store[j].key != key
    ensures i < |store| ==> store[i].key == key
    decreases |store|
  {
    if |store| == 0 then 0
    else if store[0].key == key then 0
    else 1 + KeyStart(store[1..], key)
  }

  /** The records an iterator seeked to `key` yields, newest version of `key` first. */
  function KeyIterator(store: seq<Record>, key: Key): seq<Record> {
    store[KeyStart(store, key)..]
  }

  datatype Lookup = Found(item: Record) | KeyNotFound | LookupFailed(error: Error)

  /**
   * `txn.Get(key)` at the maximal read timestamp: the newest version of `key`, with a
   * deleted or expired newest version reported as not found. `fault` injects an I/O error.
   */
  function PointGet(store: seq<Record>, key: Key, fault: Option<Error>): (r: Lookup)
    ensures fault.Some? ==> r == LookupFailed(fault.value)
    ensures r.Found? ==> r.item.key == key && !r.item.deletedOrExpired
    ensures fault.None? && (forall i | 0 <= i < |store| :: !Live(key, store[i])) ==> r.KeyNotFound?
    ensures r.Found? ==> r.item == store[KeyStart(store, key)]
    ensures fault.None? ==>
              (r.KeyNotFound? <==> KeyStart(store, key) == |store| || store[KeyStart(store, key)].deletedOrExpired)
  {
    if fault.Some? then LookupFailed(fault.value)
    else
      var i := KeyStart(store, key);
      if i == |store| || store[i].deletedOrExpired then KeyNotFound else Found(store[i])
  }

  /**
   * `getNew`: a point lookup first; not found gives the empty list, a Complete newest
   * version is decoded directly, anything else falls back to the full walk.
   */
  function GetNew(key: Key, store: seq<Record>, fault: Option<Error>): (r: Result<List>)
    ensures fault.Some? ==> r == Err(fault.value)
    ensures fault.None? && (forall i | 0 <= i < |store| :: store[i].key != key) ==> r == Ok(EmptyList(key))
    ensures r.Ok? ==> r.value.key == key
  {
    match PointGet(store, key, fault)
    case LookupFailed(e) => Err(e)
    case KeyNotFound => Ok(EmptyList(key))
    case Found(item) =>
      if item.meta.complete then
        match item.payload
        case Garbled => Err(UndecodableSnapshot)
        case Decoded(pl) => Ok(List(key, pl, item.version, map[]))
      else ReadPostingList(key, KeyIterator(store, key))
  }

  // ---------------------------------------------------------------------------
  // Declarative reference: where the walk stops and what it assembles
  // ---------------------------------------------------------------------------

  /**
   * The walk folds exactly `recs[..n]`: every one of them is live, none but the last
   * is terminal, and the next record is absent, not live, or follows a terminal one.
   */
  predicate StopsAt(key: Key, recs: seq<Record>, n: nat) {
    && n <= |recs|
    && (forall i | 0 <= i < n :: Live(key, recs[i]))
    && (forall i | 0 <= i < n - 1 :: !Terminal(recs[i]))
    && (n == |recs| || !Live(key, recs[n]) || (n > 0 && Terminal(recs[n - 1])))
  }

  /** The stop point exists for every record sequence. */
  function StopIndex(key: Key, recs: seq<Record>): (n: nat)
    ensures StopsAt(key, recs, n)
    decreases |recs|
  {
    if |recs| == 0 || !Live(key, recs[0]) then 0
    else if Terminal(recs[0]) then 1
    else
      var m := StopIndex(key, recs[1..]);
      assert forall i | 1 <= i < m + 1 :: recs[i] == recs[1..][i - 1];
      m + 1
  }

  /** The stop point is unique. */
  lemma StopsAtUnique(key: Key, recs: seq<Record>, n: nat, m: nat)
    requires StopsAt(key, recs, n) && StopsAt(key, recs, m)
    ensures n == m
  {
  }

  /**
   * How many records the walk reads: the folded ones, plus the record that stopped it
   * when that record was not live. After a terminal record the walk breaks before
   * advancing the iterator, so the next record is never read.
   */
  function Examined(recs: seq<Record>, n: nat): nat {
    if n < |recs| && !(n > 0 && Terminal(recs[n - 1])) then n + 1 else n
  }

  /** The walk stopped on its own (a record ended it) rather than by running out of records. */
  predicate StoppedEarly(recs: seq<Record>, n: nat) {
    n < |recs| || (0 < n <= |recs| && Terminal(recs[n - 1]))
  }

  /** The deltas a folded prefix contributes, each stamped with its version. */
  function Deltas(folded: seq<Record>): (m: map<nat, PostingList>)
    requires Descending(folded)
    ensures forall i | 0 <= i < |folded| && PlainDelta(folded[i]) ::
              folded[i].version in m && m[folded[i].version] == Stamp(Content(folded[i]), folded[i].version)
  {
    map i | 0 <= i < |folded| && PlainDelta(folded[i]) :: folded[i].version := Stamp(Content(folded[i]), folded[i].version)
  }

  /** The reference mutation map's keys are exactly the versions of the folded plain deltas. */
  lemma DeltasKeys(folded: seq<Record>)
    requires Descending(folded)
    ensures forall v :: v in Deltas(folded) <==> exists i | 0 <= i < |folded| :: PlainDelta(folded[i]) && folded[i].version == v
  {
  }

  /** The folded prefix ends in a Complete snapshot. */
  predicate EndsInSnapshot(folded: seq<Record>) {
    |folded| > 0 && folded[|folded| - 1].meta.complete
  }

  /**
   * The list reconstructed from a folded prefix: the snapshot it ends in (if any) as
   * base with `minTs` its version, and every plain delta in the mutation map.
   */
  function Assemble(key: Key, folded: seq<Record>): (l: List)
    requires Descending(folded)
    ensures l.key == key
    ensures EndsInSnapshot(folded) ==>
              l.minTs == folded[|folded| - 1].version && l.plist == Content(folded[|folded| - 1])
    ensures !EndsInSnapshot(folded) ==> l.minTs == 0 && l.plist == EmptyPostingList
    ensures EndsInSnapshot(folded) ==> forall v | v in l.mutationMap :: v > l.minTs
  {
    var last := |folded| - 1;
    if EndsInSnapshot(folded) then
      List(key, Content(folded[last]), folded[last].version, Deltas(folded))
    else
      List(key, EmptyPostingList, 0, Deltas(folded))
  }

  // ---------------------------------------------------------------------------
  // The walk agrees with the reference
  // ---------------------------------------------------------------------------

  /** Peeling a leading plain delta off a folded prefix: its version is newer than every other key. */
  lemma DeltasCons(folded: seq<Record>)
    requires |folded| > 0 && PlainDelta(folded[0])
    requires Descending(folded)
    ensures folded[0].version !in Deltas(folded[1..])
    ensures Deltas(folded) == Deltas(folded[1..])[folded[0].version := Stamp(Content(folded[0]), folded[0].version)]
  {
  }

  /** Updating before a union is updating the united map, when the union does not override the key. */
  lemma UpdateThenUnion<K, V>(m: map<K, V>, k: K, v: V, b: map<K, V>)
    requires k !in b
    ensures m[k := v] + b == m + b[k := v]
  {
  }

  /** A plain, non-discarding delta at the head of a prefix: the assembly of the rest, plus that delta. */
  lemma AssembleCons(key: Key, recs: seq<Record>, n: nat)
    requires 1 < n <= |recs| || (n == 1 && |recs| >= 1)
    requires PlainDelta(recs[0])
    requires Descending(recs[..n])
    ensures Descending(recs[1..][..n - 1])
    ensures recs[0].version !in Assemble(key, recs[1..][..n - 1]).mutationMap
    ensures var a := Assemble(key, recs[..n]);
            var b := Assemble(key, recs[1..][..n - 1]);
            a == b.(mutationMap := b.mutationMap[recs[0].version := Stamp(Content(recs[0]), recs[0].version)])
  {
    var folded := recs[..n];
    assert folded[1..] == recs[1..][..n - 1];
    DeltasCons(folded);
    if n > 1 {
      assert folded[n - 1] == recs[1..][..n - 1][n - 2];
    }
  }

  /** The result `WalkMatchesAssemble` promises: the assembly of `folded`, over the accumulator's map. */
  function AssembledOver(l: List, key: Key, folded: seq<Record>): List
    requires Descending(folded)
  {
    var a := Assemble(key, folded);
    a.(mutationMap := l.mutationMap + a.mutationMap)
  }

  /** A Complete record at the head of the walk: it alone is folded. */
  lemma WalkHeadSnapshot(key: Key, recs: seq<Record>, n: nat, l: List)
    requires StopsAt(key, recs, n) && n > 0 && recs[0].meta.complete
    requires WellFormed(recs[0])
    requires l.key == key
    ensures n == 1 && Descending(recs[..n])
    ensures Walk(key, recs, l) == Ok(AssembledOver(l, key, recs[..n]))
  {
    assert recs[..n] == [recs[0]];
    assert l.mutationMap + map[] == l.mutationMap;
  }

  /** A discarding plain delta at the head of the walk: it alone is folded. */
  lemma WalkHeadDiscard(key: Key, recs: seq<Record>, n: nat, l: List)
    requires StopsAt(key, recs, n) && n > 0 && PlainDelta(recs[0]) && recs[0].discardEarlier
    requires WellFormed(recs[0])
    requires l.key == key && l.minTs == 0 && l.plist == EmptyPostingList
    ensures n == 1 && Descending(recs[..n])
    ensures Walk(key, recs, l) == Ok(AssembledOver(l, key, recs[..n]))
  {
    var item := recs[0];
    var s := Stamp(Content(item), item.version);
    assert recs[..n] == [item];
    assert Deltas([item]) == map[item.version := s];
    assert l.mutationMap + map[item.version := s] == l.mutationMap[item.version := s];
  }

  /** The walk from any empty-based accumulator yields the reference assembly, over the accumulator's map. */
  lemma {:induction false} WalkMatchesAssemble(key: Key, recs: seq<Record>, n: nat, l: List)
    requires StopsAt(key, recs, n)
    requires forall i | 0 <= i < n :: WellFormed(recs[i])
    requires Descending(recs[..n])
    requires l.key == key && l.minTs == 0 && l.plist == EmptyPostingList
    ensures Walk(key, recs, l) == Ok(AssembledOver(l, key, recs[..n]))
    decreases |recs|
  {
    if n == 0 {
      assert l.mutationMap + map[] == l.mutationMap;
    } else if recs[0].meta.complete {
      WalkHeadSnapshot(key, recs, n, l);
    } else if recs[0].discardEarlier {
      WalkHeadDiscard(key, recs, n, l);
    } else {
      var item := recs[0];
      var s := Stamp(Content(item), item.version);
      var next := l.(mutationMap := l.mutationMap[item.version := s]);
      var rest := recs[1..];
      assert Walk(key, recs, l) == Walk(key, rest, next);
      AssembleCons(key, recs, n);
      var b := Assemble(key, rest[..n - 1]);
      UpdateThenUnion(l.mutationMap, item.version, s, b.mutationMap);
      assert StopsAt(key, rest, n - 1) by {
        assert forall i | 0 <= i < n - 1 :: rest[i] == recs[i + 1];
      }
      WalkMatchesAssemble(key, rest, n - 1, next);
    }
  }

  /** The walk fails at the first ill-formed folded record, with that record's error. */
  lemma {:induction false} WalkFailsAtFirstBad(key: Key, recs: seq<Record>, n: nat, k: nat, l: List)
    requires StopsAt(key, recs, n)
    requires k < n && !WellFormed(recs[k])
    requires forall i | 0 <= i < k :: WellFormed(recs[i])
    ensures Walk(key, recs, l) == Err(ErrorOf(recs[k]))
    decreases k
  {
    if k > 0 {
      var rest := recs[1..];
      var next := l.(mutationMap := l.mutationMap[recs[0].version := Stamp(Content(recs[0]), recs[0].version)]);
      assert StopsAt(key, rest, n - 1) by {
        assert forall i | 0 <= i < n - 1 :: rest[i] == recs[i + 1];
      }
      assert rest[k - 1] == recs[k];
      WalkFailsAtFirstBad(key, rest, n - 1, k - 1, next);
    }
  }

  /** Index of the first ill-formed record below `n`. */
  lemma FirstBad(recs: seq<Record>, n: nat) returns (k: nat)
    requires n <= |recs|
    requires exists i | 0 <= i < n :: !WellFormed(recs[i])
    ensures k < n && !WellFormed(recs[k])
    ensures forall i | 0 <= i < k :: WellFormed(recs[i])
  {
    k := 0;
    while WellFormed(recs[k])
      invariant k < n
      invariant forall i | 0 <= i < k :: WellFormed(recs[i])
      decreases n - k
    {
      k := k + 1;
    }
  }

  /** A well-formed folded prefix is read as its reference assembly. */
  lemma ReadWellFormed(key: Key, recs: seq<Record>, n: nat)
    requires StopsAt(key, recs, n)
    requires forall i | 0 <= i < n :: WellFormed(recs[i])
    requires Descending(recs[..n])
    ensures ReadPostingList(key, recs) == Ok(Assemble(key, recs[..n]))
  {
    WalkMatchesAssemble(key, recs, n, EmptyList(key));
    AssembledOverEmpty(key, recs[..n]);
  }

  /** Over an empty accumulator the assembly is the reference assembly itself. */
  lemma AssembledOverEmpty(key: Key, folded: seq<Record>)
    requires Descending(folded)
    ensures AssembledOver(EmptyList(key), key, folded) == Assemble(key, folded)
  {
    var a := Assemble(key, folded);
    assert map[] + a.mutationMap == a.mutationMap;
  }

  /**
   * The full characterisation of `ReadPostingList`: with `n` the stop point, the read
   * succeeds exactly when the first `n` records are well formed, and then yields the
   * reference assembly of those records; otherwise it reports the first bad record's error.
   */
  lemma ReadPostingListExact(key: Key, recs: seq<Record>, n: nat)
    requires StopsAt(key, recs, n)
    requires Descending(recs[..n])
    ensures ReadPostingList(key, recs).Ok? <==> forall i | 0 <= i < n :: WellFormed(recs[i])
    ensures (forall i | 0 <= i < n :: WellFormed(recs[i])) ==>
              ReadPostingList(key, recs) == Ok(Assemble(key, recs[..n]))
    ensures (exists i | 0 <= i < n :: !WellFormed(recs[i])) ==>
              exists k | 0 <= k < n :: !WellFormed(recs[k]) && ReadPostingList(key, recs) == Err(ErrorOf(recs[k]))
  {
    if forall i | 0 <= i < n :: WellFormed(recs[i]) {
      ReadWellFormed(key, recs, n);
    } else {
      var k := FirstBad(recs, n);
      WalkFailsAtFirstBad(key, recs, n, k, EmptyList(key));
      assert ReadPostingList(key, recs) == Err(ErrorOf(recs[k]));
    }
  }

  /**
   * No delta older than the snapshot is folded: when the walk ends in a Complete record
   * `minTs` is its version and every mutation-map key is newer; with no Complete record
   * folded, `minTs` stays 0 and the base snapshot stays empty.
   */
  lemma SnapshotBoundsDeltas(key: Key, recs: seq<Record>, n: nat)
    requires StopsAt(key, recs, n)
    requires Descending(recs[..n])
    ensures var r := ReadPostingList(key, recs);
            r.Ok? && n > 0 && recs[n - 1].meta.complete ==>
              && r.value.minTs == recs[n - 1].version
              && (forall v | v in r.value.mutationMap :: v > r.value.minTs)
    ensures var r := ReadPostingList(key, recs);
            r.Ok? && (forall i | 0 <= i < n :: !recs[i].meta.complete) ==>
              r.value.minTs == 0 && r.value.plist == EmptyPostingList
  {
    ReadPostingListExact(key, recs, n);
    if n > 0 {
      assert recs[..n][n - 1] == recs[n - 1];
    }
  }

  /** The walk reads no further than the record that stopped it: later records never matter. */
  lemma {:induction false} WalkIgnoresPastStop(key: Key, recs: seq<Record>, n: nat, tail: seq<Record>, l: List)
    requires StopsAt(key, recs, n) && StoppedEarly(recs, n)
    ensures Walk(key, recs[..Examined(recs, n)] + tail, l) == Walk(key, recs, l)
    decreases |recs|
  {
    var seen := recs[..Examined(recs, n)] + tail;
    if n > 0 {
      assert seen[0] == recs[0];
      var item := recs[0];
      if !item.meta.complete && item.meta.delta && item.payload.Decoded? && !item.discardEarlier {
        var rest := recs[1..];
        var next := l.(mutationMap := l.mutationMap[item.version := Stamp(Content(item), item.version)]);
        assert StopsAt(key, rest, n - 1) by {
          assert forall i | 0 <= i < n - 1 :: rest[i] == recs[i + 1];
        }
        assert seen[1..] == rest[..Examined(rest, n - 1)] + tail;
        WalkIgnoresPastStop(key, rest, n - 1, tail, next);
      }
    } else if |recs| > 0 {
      assert seen[0] == recs[0];
      assert !Live(key, recs[0]);
      assert Walk(key, recs, l) == Ok(l);
      assert Walk(key, seen, l) == Ok(l);
    }
  }

  /** `ReadPostingList` is decided by the records up to and including the stopping one. */
  lemma ReadIgnoresPastStop(key: Key, recs: seq<Record>, n: nat, tail: seq<Record>)
    requires StopsAt(key, recs, n) && StoppedEarly(recs, n)
    ensures ReadPostingList(key, recs[..Examined(recs, n)] + tail) == ReadPostingList(key, recs)
  {
    WalkIgnoresPastStop(key, recs, n, tail, EmptyList(key));
  }

  /** An entry already in the accumulator survives the walk unless a later record reuses its version. */
  lemma {:induction false} WalkKeepsEntry(key: Key, recs: seq<Record>, l: List, v: nat)
    requires v in l.mutationMap
    requires forall i | 0 <= i < |recs| :: recs[i].version != v
    ensures var r := Walk(key, recs, l);
            r.Ok? ==> v in r.value.mutationMap && r.value.mutationMap[v] == l.mutationMap[v]
    decreases |recs|
  {
    if |recs| > 0 && Live(key, recs[0]) && !recs[0].meta.complete && recs[0].meta.delta
       && recs[0].payload.Decoded? && !recs[0].discardEarlier {
      var next := l.(mutationMap := l.mutationMap[recs[0].version := Stamp(Content(recs[0]), recs[0].version)]);
      WalkKeepsEntry(key, recs[1..], next, v);
    }
  }

  /**
   * `getNew` never disagrees with the walk: when the lookup does not fail, the fast
   * paths (key not found or deleted, Complete newest version) give exactly what
   * `ReadPostingList` over the key's iterator gives.
   */
  lemma GetNewAgreesWithRead(key: Key, store: seq<Record>)
    ensures GetNew(key, store, None) == ReadPostingList(key, KeyIterator(store, key))
  {
  }

  /**
   * The lookup outcomes of `getNew`: a missing key or a deleted newest version gives the
   * empty list with no error, and a decodable Complete newest version is taken as the
   * snapshot at its version with no deltas.
   */
  lemma GetNewFastPaths(key: Key, store: seq<Record>)
    ensures var i := KeyStart(store, key);
            i == |store| || store[i].deletedOrExpired ==> GetNew(key, store, None) == Ok(EmptyList(key))
    ensures var i := KeyStart(store, key);
            i < |store| && Live(key, store[i]) && store[i].meta.complete && store[i].payload.Decoded? ==>
              GetNew(key, store, None) == Ok(List(key, store[i].payload.pl, store[i].version, map[]))
  {
  }

  // ---------------------------------------------------------------------------
  // Worked scenarios
  // ---------------------------------------------------------------------------

  /** A Complete record at 100 under Deltas at 105 and 101: `minTs` is 100 and the map holds 101 and 105. */
  lemma ScenarioSnapshotUnderDeltas(key: Key, snap: PostingList, d1: PostingList, d2: PostingList)
    ensures var recs := [
              Record(key, 105, DeltaPosting, false, false, Decoded(d2)),
              Record(key, 101, DeltaPosting, false, false, Decoded(d1)),
              Record(key, 100, UserMeta(true, false), false, false, Decoded(snap))];
            var r := ReadPostingList(key, recs);
            && r.Ok? && r.value.minTs == 100 && r.value.plist == snap
            && r.value.mutationMap.Keys == {101, 105}
            && r.value.mutationMap[101] == Stamp(d1, 101)
  {
    var recs := [
      Record(key, 105, DeltaPosting, false, false, Decoded(d2)),
      Record(key, 101, DeltaPosting, false, false, Decoded(d1)),
      Record(key, 100, UserMeta(true, false), false, false, Decoded(snap))];
    var l0 := EmptyList(key);
    var l1 := l0.(mutationMap := map[105 := Stamp(d2, 105)]);
    var l2 := l1.(mutationMap := l1.mutationMap[101 := Stamp(d1, 101)]);
    assert recs[1..][1..] == [recs[2]];
    assert Walk(key, recs, l0) == Walk(key, recs[1..], l1);
    assert Walk(key, recs[1..], l1) == Walk(key, [recs[2]], l2);
    assert Walk(key, [recs[2]], l2) == Ok(l2.(plist := snap, minTs := 100));
    assert l2.mutationMap.Keys == {101, 105};
  }

  /** A key whose newest version is deleted reads as the empty list, with no error. */
  lemma ScenarioDeletedNewest(key: Key, older: seq<Record>, pl: PostingList)
    ensures var store := [Record(key, 7, DeltaPosting, true, false, Decoded(pl))] + older;
            GetNew(key, store, None) == Ok(EmptyList(key))
  {
  }
}

