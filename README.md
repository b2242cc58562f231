# nucleo.dart native layer, modelled in Dafny

nucleo.dart hands a Dart host a fuzzy matcher through a small C-ABI layer
(`rust/src/lib.rs`). This project models the parts of that layer that hold
logic of their own, and proves properties about them:

- **Ingestion** (`nucleo_dart_add`). The caller's bytes become an item's
  payload, tagged with a caller-chosen `u32` identity. A closure derives the
  searchable text of column 0. When the payload is valid UTF-8, column 0
  gets the decoded text. Otherwise the closure returns early and leaves the
  column alone. UTF-8 follows the syntax of section 4 of RFC 3629.
- **Ranked access** (`nucleo_dart_snapshot_get_matched_item` and
  `..._get_matched_items`).
  - A snapshot is a value: the stored items plus the ranked list of
    matches, each a score and a store index.
  - Reading rank `r` gives that match's score, plus the identity and
    payload of the item it points at.
  - A rank at or past the matched count panics in the source. Here it is
    an `OutOfRange` error.
  - The range accessor hands each record to a host callback. Here the
    callback appends to an output sequence. The accessor stops at the
    first failing rank, and the records already handed over stay handed
    over.
- **Joining two snapshots** (`nucleo_dart_join_snapshot`). This is the heart
  of the layer.
  - The join runs two passes and keeps a map from identity to (position in
    the result, score stored there).
  - The first pass walks A's matches in rank order. It appends each one and
    treats a repeated identity as fatal (the source panics).
  - The second pass walks B's matches. A seen identity's entry is
    overwritten in place, but only by a strictly greater score. An unseen
    identity is appended.
  - The meaning of the result is specified on its own terms (`JoinSpec`):
    - `Keys`: the distinct identities of all candidates (A's matches, then
      B's), in order of first occurrence.
    - `Best`: for each identity, its first candidate with the highest
      score.
    - `Merged`: the result, which holds `Best` of every key, in key order.
  - The two loops (`Join.FirstPass` and `Join.SecondPass`, whose step is
    `Join.Absorb`) are proved to compute exactly `Merged`.

The source looks up B's match indices in **A's** item store (lib.rs:263).
The join is therefore modelled once, as `Join.Merge`, parameterised by the
store that B's indices are looked up in:
- `Join.JoinSnapshot` is the code as written. It passes A's store.
- `Join.JoinSnapshotCorrected` passes B's own store.

See "Findings".

Modules:
- `types.dfy`: `RustInts`, the `u8` and `u32` ranges of the interface.
- `snapshot.dfy`: `Snapshots`, holding the snapshot values and the
  ranked accessors.
- `utf8.dfy`: `Utf8`, holding the RFC 3629 decoder and encoder and their
  round trips.
- `injector.dfy`: `Injection`, holding the fill-columns closure and the
  append-only item store.
- `join_spec.dfy`: `JoinSpec`, holding what a join means.
- `join.dfy`: `Join`, holding the two-pass algorithm and its proof.

## Model

| member | source | states |
|---|---|---|
| Snapshots.GetMatchedItem | rust/src/lib.rs:170-182 | succeeds exactly when the rank is below the matched count, else fails with `OutOfRange(rank)`; on success the score is that rank's match score, and identity and payload are those of the stored item that match points at |
| Snapshots.GetMatchedItems | rust/src/lib.rs:187-203 | fails exactly when some rank in `start..end` is out of range, i.e. when the range is non-empty and `end` exceeds the matched count; emits every in-range rank from `start` on, in order, each record equal to `GetMatchedItem` of its rank; emits `end - start` records when it does not fail |
| Utf8.Width | rust/src/lib.rs:63 | the length of the well-formed UTF-8 character at the front is at most 4 and at most the input length, is 1 for an ASCII lead byte, and is 1 only for one |
| Utf8.CodePoint | rust/src/lib.rs:63 | a well-formed character decodes to a Unicode scalar value (never a surrogate, never above U+10FFFF) in the range its length allows, so overlong forms are excluded |
| Utf8.Decode | rust/src/lib.rs:63 | valid UTF-8 decodes to a text no longer than the bytes |
| Utf8.EncodeCharWellFormed | rust/src/lib.rs:63 | every scalar value encodes to one well-formed character that decodes back to it, whatever bytes follow |
| Utf8.CharRoundTrip | rust/src/lib.rs:63 | a well-formed leading character re-encodes to exactly its own bytes |
| Utf8.DecodeEncode | rust/src/lib.rs:63 | every text encodes to valid UTF-8 that decodes back to the text |
| Utf8.EncodeDecode | rust/src/lib.rs:63 | valid UTF-8 is the encoding of what it decodes to |
| Utf8.ValidIffEncoding | rust/src/lib.rs:63-69 | a byte sequence is valid UTF-8 decoding to `t` exactly when it is the encoding of `t`, so the closure's `Ok`/`Err` split is exact |
| Injection.FillColumns | rust/src/lib.rs:62-71 | keeps the column count and every column but 0; for a valid payload column 0 holds a text whose encoding is the payload; for a malformed payload nothing changes |
| Injection.FillColumnsDerivesEncodedText | rust/src/lib.rs:62-71 | for a valid payload, column 0 equals `t` exactly when the payload is the encoding of `t`; a malformed payload is the encoding of no text |
| Injection.ItemStore.Push | rust/src/lib.rs:55-72 | every add appends exactly one entry, carrying the identity, the payload as given, and the columns the closure derives from it |
| JoinSpec.Keys | rust/src/lib.rs:243-290 | the identities the map records are distinct, at most one per candidate, and every candidate's identity is among them |
| JoinSpec.WinnersSnoc | rust/src/lib.rs:266-289 | one more candidate changes the winning entries only at its own identity, and only if that identity is new or the score strictly greater |
| JoinSpec.KeysOccur | rust/src/lib.rs:243-290 | every key is the identity of some candidate |
| JoinSpec.KeysPrefix | rust/src/lib.rs:266-289 | the keys of any prefix of the candidates are a prefix of the keys of all of them: a position, once given, never moves |
| JoinSpec.AllKeysUnique | rust/src/lib.rs:243-260 | if every candidate brings a new key, no identity repeats |
| JoinSpec.UniqueIffAllKeys | rust/src/lib.rs:243-260 | no identity repeats exactly when the number of keys equals the number of candidates |
| JoinSpec.RepeatFound | rust/src/lib.rs:245-247 | when the candidates before `i` are distinct and candidate `i` repeats one of them, `i` is the first repeat and the whole sequence has a repeat |
| JoinSpec.KeysOfUnique | rust/src/lib.rs:243-260 | with no repeated identity, the keys are the candidates' identities in order |
| JoinSpec.MergedCountsIdentities | rust/src/lib.rs:231-298 | the joined list has exactly one entry per distinct identity, hence at most one per candidate (at most \|A\|+\|B\| entries) |
| JoinSpec.FirstOccurrenceOrder | rust/src/lib.rs:278-288 | identities are laid out in order of first occurrence: if a later key occurs among the first `n` candidates, every earlier key does too |
| JoinSpec.BestIsFirstMaximum | rust/src/lib.rs:266-276 | the winner of an identity is one of its candidates; no candidate of that identity scores higher, and every earlier one scores strictly lower (ties keep the earliest) |
| JoinSpec.MergedOfUnique | rust/src/lib.rs:243-260 | with no repeated identity, the joined list is every candidate's entry, in order |
| JoinSpec.PhaseOneEntries | rust/src/lib.rs:243-260 | after the first pass alone, entry `k` is A's rank-`k` match: its score, rank `k`, and A as its source |
| JoinSpec.MergedPair | rust/src/lib.rs:262-289 | two candidates of one identity give one entry, the second only with a strictly greater score; two identities give both entries in order |
| JoinSpec.JoinEntryWins | rust/src/lib.rs:231-298 | entry `p` names an existing rank of its snapshot, carries that rank's score, stands for the `p`-th key, and no match of that identity in A or in B scores higher |
| JoinSpec.JoinIdentitiesDistinct | rust/src/lib.rs:231-298 | two different entries of the joined list stand for two different identities |
| JoinSpec.DistinctPrefixLayout | rust/src/lib.rs:243-290 | when the first `n` candidates are distinct, they hold the first `n` positions in order, and every later position holds an identity none of them has |
| JoinSpec.JoinLayout | rust/src/lib.rs:243-290 | when A has no repeated identity, position `k < \|A\|` belongs to A's rank-`k` identity, and every later position to an identity A does not match |
| JoinSpec.CandidatesCoverMatches | rust/src/lib.rs:243-263 | resolved through B's own store, the candidates' identities are exactly the matched identities of A and of B |
| JoinSpec.JoinCoversCandidates | rust/src/lib.rs:231-298 | every entry names an existing rank, and the entries stand for exactly the candidates' identities |
| JoinSpec.CorrectedJoinCovers | rust/src/lib.rs:262-290 | resolved through B's own store, the joined list has one entry per identity matched in A or B, and covers exactly those identities |
| Join.LayoutAppend | rust/src/lib.rs:278-288 | appending an unseen identity at the end, recording that position and score, keeps the map and the result in step |
| Join.LayoutReplace | rust/src/lib.rs:266-276 | overwriting a seen identity's entry in place, keeping its recorded position and storing the new score, keeps the map and the result in step |
| Join.LayoutInOrder | rust/src/lib.rs:231-298 | with distinct keys, the result holds each key's winning entry at that key's position |
| Join.TracksAppend | rust/src/lib.rs:278-288 | after an unseen identity, the appended result and updated map describe the join of one more candidate |
| Join.TracksReplace | rust/src/lib.rs:266-276 | after a seen identity with a strictly greater score, the in-place overwrite and updated map describe the join of one more candidate |
| Join.TracksKeep | rust/src/lib.rs:267 | after a seen identity with an equal or lower score, the unchanged state already describes the join of one more candidate |
| Join.TracksMerged | rust/src/lib.rs:231-298 | a tracked result is the join of the candidates so far |
| Join.FirstPass | rust/src/lib.rs:243-260 | fails exactly when A repeats an identity, reporting the rank of the first repeat; otherwise returns the join of A's matches, with the map in step |
| Join.Absorb | rust/src/lib.rs:263-289 | one B match: an unseen identity is appended; a seen one is overwritten in place only by a strictly greater score, and otherwise nothing changes; the state describes the join of one more candidate |
| Join.SecondPass | rust/src/lib.rs:262-290 | absorbing B's matches in rank order turns the join of the earlier candidates into the join of those plus all of B's |
| Join.Merge | rust/src/lib.rs:231-298 | fails exactly when A repeats an identity (reporting the first repeat), and otherwise returns the join of A's and B's matches with B's indices looked up in the given store; those indices need to lie inside that store only when the first pass succeeds |
| Join.JoinSnapshot | rust/src/lib.rs:231-298 | the join as written: as `Merge`, with B's indices looked up in A's store |
| Join.JoinSnapshotCorrected | rust/src/lib.rs:231-298 | the join with B's indices looked up in B's own store; by `JoinSpec.CorrectedJoinCovers` it keeps one entry per identity matched in A or B |
| Join.AsWrittenMisattributes | rust/src/lib.rs:263 | for a two-item A and a one-item B, the as-written join drops B's identity and overwrites A's entry with it, while the corrected join keeps both |

## Left out

- `nucleo_dart_new`, `nucleo_dart_destroy` and `nucleo_dart_tick` are left out. They create, free and drive the matcher, whose background threads are not modelled.
- `nucleo_dart_reparse` is left out. It hands the pattern to the library's parser, which is not part of this model.
- Scoring and ranking are left out. A snapshot's matches and scores are given, and `Snapshots.Valid` states only what the library guarantees: counts fit in `u32`, and every match points into the store.
- `nucleo_dart_add_all` is not modelled separately. It is a loop of the same push with the same closure that `Injection.ItemStore.Push` models.
- `nucleo_dart_get_snapshot`, `nucleo_dart_snapshot_get_item` and the two count accessors are left out. They read the library's snapshot directly and have no logic of their own.
- `nucleo_dart_destroy_join`, raw pointers, boxing and leaking are left out. The joined list is a value. The `handle` field of an entry is a `FromA`/`FromB` tag, so two different tags are used even when both handles are the same pointer.
- The `println!` of the decode error is left out (console output).
- The map's middle tuple field is left out. It is always 0 and never read.
- Injection.FillColumns: the decoded text is converted into the matcher library's column text type (`.into()` at lib.rs:70). That type is not part of this model, so the model stores the decoded `string` itself and treats the conversion as the identity.
- Injection.ItemStore.Push: this model assumes the columns handed to the closure start out empty. The library's initial column contents are not part of this model.
- Join.JoinSnapshot: when A has no repeated identity, this member requires every match index of B to lie inside A's item store. The second pass's unchecked lookup has undefined behaviour otherwise, and that behaviour is not modelled. When A repeats an identity, the first pass fails before any lookup, and no such requirement applies.
- Snapshots.GetMatchedItems: a panic ends the host process. The model instead reports `failed` and keeps the records already emitted.

## Findings

| source | as written | input that shows it | evidently intended | confidence | as-written member | corrected member |
|---|---|---|---|---|---|---|
| rust/src/lib.rs:263 | the second pass resolves B's match index `mtch.idx` with `reference_a.get_item_unchecked`, i.e. in A's item store | A stores identities 1 and 2 and matches identity 1 (score 5). B stores identity 2 and matches it (score 9). Looked up in A's store, B's match becomes identity 1. It overwrites A's entry, and identity 2 gets no entry. When some B match's index is at or past A's item count (possible once B's store is larger than A's), the lookup is out of bounds. | resolve B's indices with `reference_b`, so the result keeps one entry per identity matched in A or B | likely; not executed | Join.AsWrittenMisattributes (with Join.JoinSnapshot) | Join.JoinSnapshotCorrected, with JoinSpec.CorrectedJoinCovers |
