/**
 A point-in-time view of one matcher instance: every ingested item and the
 ranked list of matches, as the library hands it to the host. How the
 matches are scored and ranked is the library's business; here they are
 simply given.
 */
module Snapshots {
  import opened RustInts

  /** A stored candidate: the caller-assigned identity and the raw payload. */
  datatype Item = Item(identity: U32, payload: seq<Byte>)

  /** One ranked match: its score and the store index of the item it matched. */
  datatype Match = Match(score: U32, idx: U32)

  /** Rank `i` of `matches` is the `i`-th best match. */
  datatype Snapshot = Snapshot(items: seq<Item>, matches: seq<Match>)

  /** What the library guarantees of every snapshot it hands out: both counts
      fit the `u32` it reports them in, and every match points into the store. */
  predicate Valid(s: Snapshot) {
    && |s.items| < 0x1_0000_0000
    && |s.matches| < 0x1_0000_0000
    && forall i :: 0 <= i < |s.matches| ==> s.matches[i].idx < |s.items|
  }

  /** The record handed to the host for one rank. */
  datatype MatchedItem = MatchedItem(score: U32, identity: U32, payload: seq<Byte>)

  /** Asking for a rank at or past the matched count (the source unwraps and panics). */
  datatype RangeError = OutOfRange(rank: U32)

  datatype Result<T> = Ok(value: T) | Err(error: RangeError)

  /** The matched item at `rank`: the score of the rank-th match together with
      the identity and payload of the stored item that match points at. */
  function GetMatchedItem(s: Snapshot, rank: U32): (r: Result<MatchedItem>)
    requires Valid(s)
    ensures r.Ok? <==> rank < |s.matches|
    ensures r.Err? ==> r.error == OutOfRange(rank)
    ensures r.Ok? ==> r.value.score == s.matches[rank].score
    ensures r.Ok? ==> r.value.identity == s.items[s.matches[rank].idx].identity
    ensures r.Ok? ==> r.value.payload == s.items[s.matches[rank].idx].payload
  {
    if rank < |s.matches| then
      var item := s.items[s.matches[rank].idx];
      Ok(MatchedItem(s.matches[rank].score, item.identity, item.payload))
    else
      Err(OutOfRange(rank))
  }

  /** The ranks `start..end`, in increasing order, each handed to the host
      callback; the callback is modelled by appending to `emitted`. The first
      rank past the matched count stops the loop with `failed`, and the
      records emitted before it stay emitted. */
  method GetMatchedItems(s: Snapshot, start: U32, end: U32) returns (emitted: seq<MatchedItem>, failed: bool)
    requires Valid(s)
    ensures failed <==> exists i :: start <= i < end && GetMatchedItem(s, i).Err?
    ensures failed <==> start < end && |s.matches| < end
    ensures failed ==> |emitted| == if start < |s.matches| then |s.matches| - start else 0
    ensures !failed ==> |emitted| == if start < end then end - start else 0
    ensures forall k :: 0 <= k < |emitted| ==> GetMatchedItem(s, start + k) == Ok(emitted[k])
  {
    emitted, failed := [], false;
    var i := start;
    while i < end
      invariant start <= i && (i <= end || i == start)
      invariant i <= |s.matches| || i == start
      invariant |emitted| == i - start
      invariant forall k :: 0 <= k < |emitted| ==> GetMatchedItem(s, start + k) == Ok(emitted[k])
      invariant forall k :: start <= k < i ==> GetMatchedItem(s, k).Ok?
    {
      var r := GetMatchedItem(s, i);
      if r.Err? {
        failed := true;
        return;
      }
      emitted := emitted + [r.value];
      i := i + 1;
    }
  }
}
