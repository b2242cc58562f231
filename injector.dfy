/**
 Ingestion: `nucleo_dart_add` copies the caller's bytes into an owned
 payload and pushes `(identity, payload)` into the matcher together with a
 closure that derives the searchable text of column 0 from the payload.
 */
module Injection {
  import opened RustInts
  import opened Snapshots
  import Utf8

  /** The matcher is created with a single column (`Nucleo::new(.., 1)`). */
  const ColumnCount := 1

  /** The per-item closure: when the payload is valid UTF-8, column 0 receives
      the decoded text; otherwise the closure returns early and the columns
      are left as they were. No other column is ever written. */
  function FillColumns(payload: seq<Byte>, columns: seq<string>): (r: seq<string>)
    requires |columns| >= 1
    ensures |r| == |columns|
    ensures r[1..] == columns[1..]
    ensures Utf8.Valid(payload) ==> Utf8.Encode(r[0]) == payload
    ensures !Utf8.Valid(payload) ==> r == columns
  {
    if Utf8.Valid(payload) then
      Utf8.EncodeDecode(payload);
      columns[0 := Utf8.Decode(payload)]
    else
      columns
  }

  /** Column 0 after the closure holds exactly the text whose UTF-8 encoding
      is the payload, and no text at all is derived from a malformed payload. */
  lemma FillColumnsDerivesEncodedText(payload: seq<Byte>, columns: seq<string>, t: string)
    requires |columns| >= 1
    ensures Utf8.Valid(payload) ==> (FillColumns(payload, columns)[0] == t <==> payload == Utf8.Encode(t))
    ensures !Utf8.Valid(payload) ==> payload != Utf8.Encode(t)
  {
    Utf8.ValidIffEncoding(payload, t);
  }

  /** A stored entry: the item as pushed and the matcher columns derived from it. */
  datatype Entry = Entry(item: Item, columns: seq<string>)

  /** The matcher's item store as far as ingestion is concerned: append-only. */
  class ItemStore {
    var entries: seq<Entry>

    constructor ()
      ensures entries == []
    {
      entries := [];
    }

    /** `nucleo_dart_add`: the push always happens; the columns the library
        hands the closure start out empty, so a malformed payload leaves an
        item with an empty column 0, which no non-empty pattern matches. */
    method Push(identity: U32, payload: seq<Byte>)
      modifies this
      ensures entries == old(entries) + [Entry(Item(identity, payload), FillColumns(payload, seq(ColumnCount, _ => "")))]
      ensures |entries| == |old(entries)| + 1
    {
      var columns := FillColumns(payload, seq(ColumnCount, _ => ""));
      entries := entries + [Entry(Item(identity, payload), columns)];
    }
  }
}
