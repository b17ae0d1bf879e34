/**
 The payload of `inv` and `getdata` messages in src/infra/protocol.c: a count and
 the 32-byte hashes behind it. The parser goes by the length of the payload.
 */
module Inventory {
  import opened Numerals
  import opened Varint
  import opened DandelionIndex

  /** The hashes, one behind the other. */
  function Joined(hashes: seq<Hash>): (r: seq<byte>)
    ensures |r| == 32 * |hashes|
  {
    if |hashes| == 0 then [] else Joined(hashes[..|hashes| - 1]) + hashes[|hashes| - 1]
  }

  /** The bytes cut into pieces of 32. */
  function Pieces(bytes: seq<byte>): (r: seq<Hash>)
    requires |bytes| % 32 == 0
    ensures 32 * |r| == |bytes|
  {
    if |bytes| == 0 then [] else Pieces(bytes[..|bytes| - 32]) + [bytes[|bytes| - 32..]]
  }

  /** `bm_parse_inventory_message`: the count is read and then ignored. */
  function Items(payload: seq<byte>): Option<seq<Hash>> {
    var (_, n) :- Decode(payload);
    if (|payload| - n) % 32 != 0 then None else Some(Pieces(payload[n..]))
  }

  /** The payload of `bm_create_inventory_message`. */
  function Payload(hashes: seq<Hash>): seq<byte>
    requires |hashes| < TWO64
  {
    Encoded(|hashes|) + Joined(hashes)
  }

  lemma PiecesSnoc(bytes: seq<byte>, h: Hash)
    requires |bytes| % 32 == 0
    ensures Pieces(bytes + h) == Pieces(bytes) + [h]
  {
    assert (bytes + h)[..|bytes|] == bytes && (bytes + h)[|bytes|..] == h;
  }

  lemma JoinedSnoc(hashes: seq<Hash>, h: Hash)
    ensures Joined(hashes + [h]) == Joined(hashes) + h
  {
    assert (hashes + [h])[..|hashes|] == hashes;
  }

  lemma LastOf<T>(s: seq<T>, k: nat)
    requires k <= |s|
    ensures s[..|s| - k] + s[|s| - k..] == s
  {
  }

  lemma {:induction false} PiecesOfJoined(hashes: seq<Hash>)
    ensures Pieces(Joined(hashes)) == hashes
  {
    if |hashes| > 0 {
      PiecesOfJoined(hashes[..|hashes| - 1]);
      PiecesSnoc(Joined(hashes[..|hashes| - 1]), hashes[|hashes| - 1]);
      LastOf(hashes, 1);
    }
  }

  lemma {:induction false} JoinedPieces(bytes: seq<byte>)
    requires |bytes| % 32 == 0
    ensures Joined(Pieces(bytes)) == bytes
  {
    hide Joined;
    if |bytes| == 0 {
      JoinedNone();
    } else {
      JoinedPieces(bytes[..|bytes| - 32]);
      JoinedSnoc(Pieces(bytes[..|bytes| - 32]), bytes[|bytes| - 32..]);
      LastOf(bytes, 32);
    }
  }

  lemma JoinedNone()
    ensures Joined([]) == []
  {
  }

  /** A payload is accepted exactly when a count is followed by whole hashes, and yields just these. */
  lemma ItemsExact(payload: seq<byte>, hashes: seq<Hash>)
    ensures Items(payload) == Some(hashes) <==>
            Decode(payload).Some? && payload[Decode(payload).value.1..] == Joined(hashes)
  {
    hide Joined, Pieces, Decode;
    if Decode(payload).Some? {
      var rest := payload[Decode(payload).value.1..];
      if |rest| % 32 == 0 {
        JoinedPieces(rest);
      }
      PiecesOfJoined(hashes);
    }
  }

  /** What was built is parsed back; so is the same list behind any other count. */
  lemma RoundTrip(hashes: seq<Hash>, count: uint64)
    ensures Items(Encoded(count) + Joined(hashes)) == Some(hashes)
    ensures |hashes| < TWO64 ==> Items(Payload(hashes)) == Some(hashes)
  {
    hide Joined, Decode, Encoded;
    Varint.RoundTrip(count, Joined(hashes));
    ItemsExact(Encoded(count) + Joined(hashes), hashes);
    if |hashes| < TWO64 {
      Varint.RoundTrip(|hashes|, Joined(hashes));
      ItemsExact(Payload(hashes), hashes);
    }
  }

  method ParseInventory(payload: seq<byte>) returns (r: Option<seq<Hash>>)
    ensures r == Items(payload)
  {
    hide Decode;
    var decoded := Decode(payload);
    if decoded.None? {
      return None;
    }
    var offset := decoded.value.1;
    if (|payload| - offset) % 32 != 0 {
      return None;
    }
    ghost var start := offset;
    var count := (|payload| - offset) / 32;
    var items: seq<Hash> := [];
    for i := 0 to count
      invariant offset == start + 32 * i && items == Pieces(payload[start..offset])
    {
      PiecesSnoc(payload[start..offset], payload[offset..offset + 32]);
      assert payload[start..offset] + payload[offset..offset + 32] == payload[start..offset + 32];
      items := items + [payload[offset..offset + 32]];
      offset := offset + 32;
    }
    assert payload[start..] == payload[start..offset];
    r := Some(items);
  }

  method BuildPayload(hashes: seq<Hash>) returns (payload: seq<byte>)
    requires |hashes| < TWO64
    ensures payload == Payload(hashes)
  {
    hide Encoded;
    payload := Encoded(|hashes|);
    for i := 0 to |hashes|
      invariant payload == Encoded(|hashes|) + Joined(hashes[..i])
    {
      assert hashes[..i + 1][..i] == hashes[..i];
      Assoc(Encoded(|hashes|), Joined(hashes[..i]), hashes[i]);
      payload := payload + hashes[i];
    }
    assert hashes[..|hashes|] == hashes;
  }
}
