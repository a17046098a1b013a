/**
 * The transaction's bookkeeping: the abort flag, the sets of written keys (`deltas`)
 * and conflict keys (`conflicts`), and `Fill`, which reports them to the coordinator.
 * The lock guarding the sets and the atomic flag become plain fields of a value.
 */
module Transactions {
  import opened Types
  import opened Base36

  /** A transaction: its read timestamp, the keys it wrote, its conflict keys, and the abort flag. */
  datatype Txn = Txn(startTs: nat, deltas: set<Key>, conflicts: set<Key>, shouldAbort: bool)

  /** The context record `Fill` populates for the coordinator. */
  datatype TxnContext = TxnContext(startTs: nat, keys: seq<string>, preds: seq<string>)

  /** `ShouldAbort`: an absent transaction never aborts. */
  function ShouldAbort(t: Option<Txn>): (b: bool)
    ensures b ==> t.Some?
    ensures t.Some? ==> (b <==> t.value.shouldAbort)
  {
    match t
    case None => false
    case Some(tx) => tx.shouldAbort
  }

  /** `SetAbort`: afterwards the transaction reports that it must abort; nothing else changes. */
  function SetAbort(t: Txn): (r: Txn)
    ensures ShouldAbort(Some(r))
    ensures r.startTs == t.startTs && r.deltas == t.deltas && r.conflicts == t.conflicts
  {
    t.(shouldAbort := true)
  }

  /** Setting the flag twice is setting it once. */
  lemma SetAbortIdempotent(t: Txn)
    ensures SetAbort(SetAbort(t)) == SetAbort(t)
  {
  }

  /**
   * `AddKeys`: `key` always joins `deltas`; `conflictKey` joins `conflicts` only when it
   * is non-empty. Neither set ever loses an element and nothing else is added.
   */
  function AddKeys(t: Txn, key: Key, conflictKey: Key): (r: Txn)
    ensures key in r.deltas
    ensures t.deltas <= r.deltas && r.deltas - t.deltas <= {key}
    ensures |conflictKey| > 0 ==> conflictKey in r.conflicts
    ensures t.conflicts <= r.conflicts && r.conflicts - t.conflicts <= {conflictKey}
    ensures |conflictKey| == 0 ==> r.conflicts == t.conflicts
    ensures r.startTs == t.startTs && r.shouldAbort == t.shouldAbort
  {
    var conflicts := if |conflictKey| > 0 then t.conflicts + {conflictKey} else t.conflicts;
    t.(deltas := t.deltas + {key}, conflicts := conflicts)
  }

  /** Adding the same pair again changes nothing, so neither set grows. */
  lemma AddKeysIdempotent(t: Txn, key: Key, conflictKey: Key)
    ensures AddKeys(AddKeys(t, key, conflictKey), key, conflictKey) == AddKeys(t, key, conflictKey)
    ensures |AddKeys(AddKeys(t, key, conflictKey), key, conflictKey).deltas| == |AddKeys(t, key, conflictKey).deltas|
  {
  }

  /** The text reported for one conflict key: the base-36 form of its 64-bit fingerprint. */
  function ConflictText(fingerprint: Key -> uint64, c: Key): string {
    FormatUint36(fingerprint(c))
  }

  /**
   * One of `Fill`'s loops: for every element of `xs`, in whatever order the set is
   * iterated, append `f` of it to `out` unless it is already there.
   */
  method AppendAbsent(out: seq<string>, xs: set<Key>, f: Key -> string) returns (r: seq<string>)
    ensures |out| <= |r| && r[..|out|] == out
    ensures forall x | x in xs :: f(x) in r
    ensures forall j | |out| <= j < |r| :: r[j] !in out && exists x | x in xs :: r[j] == f(x)
    ensures NoDup(r[|out|..])
    ensures NoDup(out) ==> NoDup(r)
  {
    r := out;
    var todo := xs;
    while todo != {}
      invariant todo <= xs
      invariant |out| <= |r| && r[..|out|] == out
      invariant forall x | x in xs - todo :: f(x) in r
      invariant forall j | |out| <= j < |r| :: r[j] !in out && exists x | x in xs :: r[j] == f(x)
      invariant NoDup(r[|out|..])
      invariant NoDup(out) ==> NoDup(r)
      decreases todo
    {
      var x :| x in todo;
      if f(x) !in r {
        assert f(x) !in out by {
          assert forall j | 0 <= j < |out| :: out[j] == r[j];
        }
        r := r + [f(x)];
      }
      todo := todo - {x};
    }
  }

  /**
   * `Fill`: sets the start timestamp and only appends to `keys` and `preds`. Afterwards
   * the base-36 fingerprint of every conflict key is in `keys` and the predicate of every
   * written key is in `preds`; each appended entry comes from those sets, was not already
   * present, and is appended once, so duplicate-free inputs stay duplicate-free.
   */
  method Fill(t: Txn, ctx: TxnContext, fingerprint: Key -> uint64, attr: Key -> string) returns (r: TxnContext)
    ensures r.startTs == t.startTs
    ensures |ctx.keys| <= |r.keys| && r.keys[..|ctx.keys|] == ctx.keys
    ensures |ctx.preds| <= |r.preds| && r.preds[..|ctx.preds|] == ctx.preds
    ensures forall c | c in t.conflicts :: ConflictText(fingerprint, c) in r.keys
    ensures forall j | |ctx.keys| <= j < |r.keys| ::
              r.keys[j] !in ctx.keys && exists c | c in t.conflicts :: r.keys[j] == ConflictText(fingerprint, c)
    ensures forall d | d in t.deltas :: attr(d) in r.preds
    ensures forall j | |ctx.preds| <= j < |r.preds| ::
              r.preds[j] !in ctx.preds && exists d | d in t.deltas :: r.preds[j] == attr(d)
    ensures NoDup(ctx.keys) ==> NoDup(r.keys)
    ensures NoDup(ctx.preds) ==> NoDup(r.preds)
  {
    var keys := AppendAbsent(ctx.keys, t.conflicts, c => ConflictText(fingerprint, c));
    var preds := AppendAbsent(ctx.preds, t.deltas, attr);
    r := TxnContext(t.startTs, keys, preds);
  }

  /** Distinct fingerprints are reported as distinct text, so deduplication never merges them. */
  lemma DistinctFingerprintsDistinctText(fingerprint: Key -> uint64, a: Key, b: Key)
    requires fingerprint(a) != fingerprint(b)
    ensures ConflictText(fingerprint, a) != ConflictText(fingerprint, b)
  {
    FormatInjective(fingerprint(a), fingerprint(b));
  }
}
