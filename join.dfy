/**
 `nucleo_dart_join_snapshot`: merge the ranked matches of two snapshots into
 one list keyed by item identity, in two passes over the match lists, with a
 map from identity to (position in the result, score stored there).
 */
module Join {
  import opened RustInts
  import opened Snapshots
  import opened JoinSpec

  /** The fatal invariant violation of the first pass (the source panics). */
  datatype JoinError = DuplicateIdentity(rank: U32)

  datatype Outcome = Success(value: seq<JoinEntry>) | Failure(error: JoinError)

  /** What the map records for a seen identity: where its entry sits in the
      result and the score stored there. (The source's middle tuple field is
      always 0 and is left out.) */
  datatype Seen = Seen(pos: nat, score: U32)

  /** The loop state laid out against identities `ks` (in order of first
      occurrence) and their winning entries `w`: the map knows exactly the
      identities in `ks`; each one's recorded position is its place in `ks`,
      and the result holds its winning entry there, whose score the map
      records too. */
  ghost predicate Layout(ks: seq<U32>, w: map<U32, JoinEntry>, res: seq<JoinEntry>, seen: map<U32, Seen>) {
    && |res| == |ks|
    && (forall k :: k in seen <==> k in ks)
    && (forall k :: k in seen ==>
          && seen[k].pos < |ks| && ks[seen[k].pos] == k
          && k in w && res[seen[k].pos] == w[k] && seen[k].score == w[k].score)
  }

  /** The state after the candidates `cs`. */
  ghost predicate Tracks(cs: seq<Cand>, res: seq<JoinEntry>, seen: map<U32, Seen>) {
    Layout(Keys(cs), Winners(cs), res, seen)
  }

  // The step lemmas below would verify with empty bodies too. Their calls and
  // `forall` blocks name the unfoldings the solver needs, which keeps each
  // proof small and stable across solver seeds.

  /** Appending the entry of a new identity at the end keeps the layout. */
  lemma LayoutAppend(ks: seq<U32>, w: map<U32, JoinEntry>, res: seq<JoinEntry>, seen: map<U32, Seen>, id: U32, e: JoinEntry)
    requires Layout(ks, w, res, seen) && id !in seen
    ensures Layout(ks + [id], w[id := e], res + [e], seen[id := Seen(|res|, e.score)])
  {
    var ks', res' := ks + [id], res + [e];
    forall k | k in seen ensures ks'[seen[k].pos] == k && res'[seen[k].pos] == res[seen[k].pos] {
    }
  }

  /** Overwriting a known identity's entry at its recorded position keeps the
      layout: no other identity is recorded at that position. */
  lemma LayoutReplace(ks: seq<U32>, w: map<U32, JoinEntry>, res: seq<JoinEntry>, seen: map<U32, Seen>, id: U32, e: JoinEntry)
    requires Layout(ks, w, res, seen) && id in seen
    ensures seen[id].pos < |res|
    ensures Layout(ks, w[id := e], res[seen[id].pos := e], seen[id := Seen(seen[id].pos, e.score)])
  {
    var pos := seen[id].pos;
    forall k | k in seen && k != id ensures seen[k].pos != pos {
      assert ks[seen[k].pos] != ks[pos];
    }
  }

  /** An unseen identity is appended, and recorded at the new last position. */
  lemma TracksAppend(cs: seq<Cand>, res: seq<JoinEntry>, seen: map<U32, Seen>, c: Cand)
    requires Tracks(cs, res, seen) && c.id !in seen
    ensures Tracks(cs + [c], res + [c.entry], seen[c.id := Seen(|res|, c.entry.score)])
  {
    KeysSnoc(cs, c);
    WinnersSnoc(cs, c);
    LayoutAppend(Keys(cs), Winners(cs), res, seen, c.id, c.entry);
  }

  /** A seen identity with a strictly greater score overwrites its entry in place. */
  lemma TracksReplace(cs: seq<Cand>, res: seq<JoinEntry>, seen: map<U32, Seen>, c: Cand)
    requires Tracks(cs, res, seen) && c.id in seen && c.entry.score > seen[c.id].score
    ensures seen[c.id].pos < |res|
    ensures Tracks(cs + [c], res[seen[c.id].pos := c.entry], seen[c.id := Seen(seen[c.id].pos, c.entry.score)])
  {
    KeysSnoc(cs, c);
    WinnersSnoc(cs, c);
    LayoutReplace(Keys(cs), Winners(cs), res, seen, c.id, c.entry);
  }

  /** A seen identity with an equal or lower score changes nothing. */
  lemma TracksKeep(cs: seq<Cand>, res: seq<JoinEntry>, seen: map<U32, Seen>, c: Cand)
    requires Tracks(cs, res, seen) && c.id in seen && c.entry.score <= seen[c.id].score
    ensures Tracks(cs + [c], res, seen)
  {
    KeysSnoc(cs, c);
    WinnersSnoc(cs, c);
  }

  /** With distinct identities, the result is the winners in key order. */
  lemma LayoutInOrder(ks: seq<U32>, w: map<U32, JoinEntry>, res: seq<JoinEntry>, seen: map<U32, Seen>)
    requires Layout(ks, w, res, seen) && Unique(ks)
    ensures forall p :: 0 <= p < |ks| ==> ks[p] in w && res[p] == w[ks[p]]
  {
    forall p | 0 <= p < |ks| ensures ks[p] in w && res[p] == w[ks[p]] {
      assert ks[seen[ks[p]].pos] == ks[p];
    }
  }

  /** The tracked result is the join of the candidates so far. */
  lemma TracksMerged(cs: seq<Cand>, res: seq<JoinEntry>, seen: map<U32, Seen>)
    requires Tracks(cs, res, seen)
    ensures res == Merged(cs)
  {
    LayoutInOrder(Keys(cs), Winners(cs), res, seen);
  }

  /** The first pass: A's matches in rank order, each appended with its rank
      and recorded in the map; an identity met twice is fatal. */
  method FirstPass(a: Snapshot) returns (r: Outcome, seen: map<U32, Seen>)
    requires Valid(a)
    ensures r.Failure? <==> !UniqueIds(CandsA(a))
    ensures r.Failure? ==> FirstRepeatAt(CandsA(a), r.error.rank)
    ensures r.Success? ==> Tracks(CandsA(a), r.value, seen)
    ensures r.Success? ==> r.value == Merged(CandsA(a))
  {
    ghost var cs := CandsA(a);
    var res: seq<JoinEntry> := [];
    seen := map[];
    for i := 0 to |a.matches|
      invariant Tracks(cs[..i], res, seen)
      invariant |res| == i
    {
      var m := a.matches[i];
      var id := a.items[m.idx].identity;
      assert cs[i] == Cand(id, JoinEntry(m.score, i, FromA));
      if id in seen {
        RepeatFound(cs, i);
        return Failure(DuplicateIdentity(i)), seen;
      }
      PrefixSnoc(cs, i);
      TracksAppend(cs[..i], res, seen, cs[i]);
      res := res + [JoinEntry(m.score, i, FromA)];
      seen := seen[id := Seen(|res| - 1, m.score)];
    }
    assert cs[..|a.matches|] == cs;
    UniqueIffAllKeys(cs);
    TracksMerged(cs, res, seen);
    return Success(res), seen;
  }

  /** One match of B, with identity `id` and would-be entry `e`: a seen
      identity's entry is overwritten in place, and only by a strictly greater
      score (equal scores keep the earlier entry); an unseen identity is
      appended. The length changes only by that append. */
  method Absorb(res: seq<JoinEntry>, seen: map<U32, Seen>, id: U32, e: JoinEntry, ghost done: seq<Cand>)
    returns (res': seq<JoinEntry>, seen': map<U32, Seen>)
    requires Tracks(done, res, seen)
    ensures Tracks(done + [Cand(id, e)], res', seen')
    ensures id !in seen ==> res' == res + [e]
    ensures id in seen && e.score > seen[id].score ==> seen[id].pos < |res| && res' == res[seen[id].pos := e]
    ensures id in seen && e.score <= seen[id].score ==> res' == res && seen' == seen
  {
    if id in seen {
      var v := seen[id];
      if e.score > v.score {
        TracksReplace(done, res, seen, Cand(id, e));
        res' := res[v.pos := e];
        seen' := seen[id := Seen(v.pos, e.score)];
      } else {
        TracksKeep(done, res, seen, Cand(id, e));
        res', seen' := res, seen;
      }
    } else {
      TracksAppend(done, res, seen, Cand(id, e));
      res' := res + [e];
      seen' := seen[id := Seen(|res'| - 1, e.score)];
    }
  }

  /** The second pass: B's matches in rank order, their indices looked up in
      `storeB`, each absorbed into the result built from the candidates `pre`. */
  method SecondPass(b: Snapshot, storeB: seq<Item>, res0: seq<JoinEntry>, seen0: map<U32, Seen>, ghost pre: seq<Cand>)
    returns (res: seq<JoinEntry>, seen: map<U32, Seen>)
    requires Valid(b) && ResolvesIn(b, storeB)
    requires Tracks(pre, res0, seen0)
    ensures Tracks(pre + CandsB(b, storeB), res, seen)
  {
    ghost var cb := CandsB(b, storeB);
    res, seen := res0, seen0;
    assert pre + cb[..0] == pre;
    for j := 0 to |b.matches|
      invariant Tracks(pre + cb[..j], res, seen)
    {
      var m := b.matches[j];
      var id := storeB[m.idx].identity;
      assert cb[j] == Cand(id, JoinEntry(m.score, j, FromB));
      AppendPrefixSnoc(pre, cb, j);
      res, seen := Absorb(res, seen, id, JoinEntry(m.score, j, FromB), pre + cb[..j]);
    }
    assert cb[..|b.matches|] == cb;
  }

  /** Both passes. B's match indices are looked up in `storeB`; the lookups
      happen only once the first pass has succeeded, so only then must they
      land inside `storeB`. */
  method Merge(a: Snapshot, b: Snapshot, storeB: seq<Item>) returns (r: Outcome)
    requires Valid(a) && Valid(b)
    requires UniqueIds(CandsA(a)) ==> ResolvesIn(b, storeB)
    ensures r.Failure? <==> !UniqueIds(CandsA(a))
    ensures r.Failure? ==> FirstRepeatAt(CandsA(a), r.error.rank)
    ensures r.Success? ==> ResolvesIn(b, storeB) && r.value == Merged(Candidates(a, b, storeB))
  {
    var seen;
    r, seen := FirstPass(a);
    if r.Success? {
      var res;
      res, seen := SecondPass(b, storeB, r.value, seen, CandsA(a));
      TracksMerged(Candidates(a, b, storeB), res, seen);
      r := Success(res);
    }
  }

  /** `nucleo_dart_join_snapshot` as written: B's match indices are looked up
      in A's item store. The lookup is unchecked, so each must lie inside it
      whenever the second pass is reached. */
  method JoinSnapshot(a: Snapshot, b: Snapshot) returns (r: Outcome)
    requires Valid(a) && Valid(b)
    requires UniqueIds(CandsA(a)) ==> ResolvesIn(b, a.items)
    ensures r.Failure? <==> !UniqueIds(CandsA(a))
    ensures r.Failure? ==> FirstRepeatAt(CandsA(a), r.error.rank)
    ensures r.Success? ==> ResolvesIn(b, a.items) && r.value == Merged(Candidates(a, b, a.items))
  {
    r := Merge(a, b, a.items);
  }

  /** The join with B's match indices looked up in B's own item store. */
  method JoinSnapshotCorrected(a: Snapshot, b: Snapshot) returns (r: Outcome)
    requires Valid(a) && Valid(b)
    ensures r.Failure? <==> !UniqueIds(CandsA(a))
    ensures r.Failure? ==> FirstRepeatAt(CandsA(a), r.error.rank)
    ensures r.Success? ==> r.value == Merged(Candidates(a, b, b.items))
  {
    r := Merge(a, b, b.items);
  }

  /** The as-written lookup misattributes B's matches. A stores identities 1
      and 2 and matches identity 1 (score 5); B stores only identity 2 and
      matches it (score 9). Looked up in A's store, B's match becomes identity
      1: it overwrites A's entry, and identity 2 is lost. Looked up in B's
      store, both identities keep an entry. */
  lemma AsWrittenMisattributes()
    ensures var a := Snapshot([Item(1, []), Item(2, [])], [Match(5, 0)]);
      var b := Snapshot([Item(2, [])], [Match(9, 0)]);
      && Valid(a) && Valid(b) && ResolvesIn(b, a.items)
      && Merged(Candidates(a, b, a.items)) == [JoinEntry(9, 0, FromB)]
      && Merged(Candidates(a, b, b.items)) == [JoinEntry(5, 0, FromA), JoinEntry(9, 0, FromB)]
  {
    var a := Snapshot([Item(1, []), Item(2, [])], [Match(5, 0)]);
    var b := Snapshot([Item(2, [])], [Match(9, 0)]);
    assert Candidates(a, b, a.items) == [Cand(1, JoinEntry(5, 0, FromA)), Cand(1, JoinEntry(9, 0, FromB))];
    assert Candidates(a, b, b.items) == [Cand(1, JoinEntry(5, 0, FromA)), Cand(2, JoinEntry(9, 0, FromB))];
    MergedPair(Cand(1, JoinEntry(5, 0, FromA)), Cand(1, JoinEntry(9, 0, FromB)));
    MergedPair(Cand(1, JoinEntry(5, 0, FromA)), Cand(2, JoinEntry(9, 0, FromB)));
  }
}
