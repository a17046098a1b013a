/** The on-disk and in-memory shapes a posting list takes. */
module Records {
  import opened Types

  /** One edge or value of a posting list; `commitTs` is an in-memory stamp, never persisted. */
  datatype Posting = Posting(uid: nat, value: seq<byte>, commitTs: nat)

  /** The decoded protobuf content of a record: its postings and an in-memory commit stamp. */
  datatype PostingList = PostingList(postings: seq<Posting>, commitTs: nat)

  /** What decoding an empty value yields. */
  const EmptyPostingList := PostingList([], 0)

  /** The two user-meta bits the reader tests: `BitCompletePosting` and `BitDeltaPosting`. */
  datatype UserMeta = UserMeta(complete: bool, delta: bool)

  /** The meta a committed delta is written with: the delta bit alone. */
  const DeltaPosting := UserMeta(complete := false, delta := true)

  /** A record's value as seen through `Unmarshal`: it decodes to a list, or it does not. */
  datatype Payload = Decoded(pl: PostingList) | Garbled

  /** One version of one key in the versioned store. */
  datatype Record = Record(
    key: Key,
    version: nat,
    meta: UserMeta,
    deletedOrExpired: bool,
    discardEarlier: bool,
    payload: Payload)

  /** The error conditions the core can report. */
  datatype Error =
    | StoreFailure(code: nat)            // an I/O error passed up from the store, cache or writer
    | UndecodableSnapshot                // a Complete record whose value does not unmarshal
    | FatalUndecodableDelta              // a Delta record whose value does not unmarshal (x.Check)
    | FatalUnexpectedMeta(meta: UserMeta) // neither meta bit set (x.Fatalf)

  datatype Result<+T> = Ok(value: T) | Err(error: Error)

  /**
   * A reconstructed posting list: `plist` is the base snapshot taken at `minTs`,
   * `mutationMap` maps commit timestamps to the deltas layered on top of it.
   */
  datatype List = List(key: Key, plist: PostingList, minTs: nat, mutationMap: map<nat, PostingList>)

  /** The list `new(List)` gives before anything is read: no snapshot, no deltas. */
  function EmptyList(key: Key): (l: List)
    ensures l.key == key && l.minTs == 0 && |l.mutationMap| == 0
    ensures l.plist.postings == [] && l.plist.commitTs == 0
  {
    List(key, EmptyPostingList, 0, map[])
  }

  /**
   * Stamps a freshly decoded delta with the version it was read at: the list and
   * every posting in it carry `version` as commit timestamp, and nothing else changes.
   */
  function Stamp(pl: PostingList, version: nat): (r: PostingList)
    ensures r.commitTs == version
    ensures |r.postings| == |pl.postings|
    ensures forall i | 0 <= i < |r.postings| ::
              r.postings[i].commitTs == version
              && r.postings[i].uid == pl.postings[i].uid
              && r.postings[i].value == pl.postings[i].value
  {
    PostingList(seq(|pl.postings|, i requires 0 <= i < |pl.postings| => pl.postings[i].(commitTs := version)), version)
  }
}
