/**
 Addresses and WIF keys (src/core/address.c). The double SHA-512 and double
 SHA-256 checksums are parameters: any function that yields four bytes.
 */
module Address {
  import opened Numerals
  import opened Varint
  import Base58

  type Checksum = f: seq<byte> -> seq<byte> | forall d :: |f(d)| == 4
    witness (d: seq<byte>) => [0, 0, 0, 0]

  const RIPE_LEN := 20
  const KEY_LEN := 32

  datatype Decoded = Decoded(version: uint64, stream: uint64, ripe: seq<byte>)

  // ------------------------------------------------------------------ encode

  /** How many leading zero bytes of the ripe an address of this version leaves out. */
  function TrimCount(version: uint64, ripe: seq<byte>): (n: nat)
    ensures n <= |ripe| && forall i :: 0 <= i < n ==> ripe[i] == 0
  {
    if 2 <= version < 4 then
      if |ripe| >= 2 && ripe[0] == 0 && ripe[1] == 0 then 2 else if |ripe| >= 1 && ripe[0] == 0 then 1 else 0
    else if version == 4 then Base58.LeadingZeros(ripe)
    else 0
  }

  function Payload(version: uint64, stream: uint64, ripe: seq<byte>): seq<byte> {
    Encoded(version) + Encoded(stream) + ripe[TrimCount(version, ripe)..]
  }

  function Text(sum: Checksum, version: uint64, stream: uint64, ripe: seq<byte>): string {
    var data := Payload(version, stream, ripe);
    "BM-" + Base58.Encoding(data + sum(data))
  }

  /** The zero-trimming branches of the encoder. */
  method Trim(version: uint64, ripe: seq<byte>) returns (trim: nat)
    requires |ripe| == RIPE_LEN
    ensures trim == TrimCount(version, ripe)
  {
    trim := 0;
    if version >= 2 && version < 4 {
      if ripe[0] == 0 && ripe[1] == 0 {
        trim := 2;
      } else if ripe[0] == 0 {
        trim := 1;
      }
    } else if version == 4 {
      while trim < RIPE_LEN && ripe[trim] == 0
        invariant trim <= RIPE_LEN && forall i :: 0 <= i < trim ==> ripe[i] == 0
      {
        trim := trim + 1;
      }
    }
  }

  /** Writes version, stream and trimmed ripe one after the other. */
  method FillPayload(data: array<byte>, version: uint64, stream: uint64, tail: seq<byte>)
    requires Size(version) + Size(stream) + |tail| <= data.Length
    modifies data
    ensures data[..Size(version) + Size(stream) + |tail|] == Encoded(version) + Encoded(stream) + tail
  {
    hide Encoded, Size;
    var verLen, streamLen := Size(version), Size(stream);
    EncodeInto(data, 0, version);
    assert data[..verLen] == data[0..0 + verLen];
    EncodeInto(data, verLen, stream);
    assert data[..verLen + streamLen] == data[..verLen] + data[verLen..verLen + streamLen];
    CopyInto(data, verLen + streamLen, tail);
    var end := verLen + streamLen + |tail|;
    assert data[..end] == data[..verLen + streamLen] + data[verLen + streamLen..end];
  }

  /** `bm_address_encode`: refuses a ripe that is not twenty bytes long. */
  method Encode(sum: Checksum, version: uint64, stream: uint64, ripe: seq<byte>) returns (r: Option<string>)
    ensures r == if |ripe| == RIPE_LEN then Some(Text(sum, version, stream, ripe)) else None
  {
    if |ripe| != RIPE_LEN {
      return None;
    }
    var trim := Trim(version, ripe);
    var trimmed := ripe[trim..];
    var dataLen := Size(version) + Size(stream) + |trimmed|;
    var data := new byte[dataLen + 4](_ => 0);
    FillPayload(data, version, stream, trimmed);
    AppendChecksum(sum, data);
    var b58 := Base58.Encode(data[..]);
    r := Some("BM-" + b58.value);
  }

  /** Fills the last four bytes of a buffer with the checksum of the others. */
  method AppendChecksum(sum: Checksum, data: array<byte>)
    requires data.Length >= 4
    modifies data
    ensures data[..] == old(data[..data.Length - 4]) + sum(old(data[..data.Length - 4]))
  {
    var n := data.Length - 4;
    var checksum := sum(data[..n]);
    CopyInto(data, n, checksum);
    assert data[..] == data[..n] + data[n..n + 4];
  }

  /** `memcpy` into a buffer at an offset. */
  method CopyInto(data: array<byte>, at: nat, src: seq<byte>)
    requires at + |src| <= data.Length
    modifies data
    ensures data[at..at + |src|] == src
    ensures data[..at] == old(data[..at])
  {
    for i := 0 to |src|
      invariant data[at..at + i] == src[..i]
      invariant data[..at] == old(data[..at])
    {
      ghost var done := data[at..at + i];
      data[at + i] := src[i];
      assert data[at..at + i] == done;
    }
  }

  // ------------------------------------------------------------------ decode

  function Base58Part(text: string): string {
    if |text| >= 3 && text[..3] == "BM-" then text[3..] else text
  }

  /** The ripe that the bytes after the stream number stand for, when the version allows their length. */
  function RipeOf(version: uint64, tail: seq<byte>): Option<seq<byte>> {
    if |tail| > RIPE_LEN then None
    else if version == 4 && (|tail| < 4 || tail[0] == 0) then None
    else Some(seq(RIPE_LEN - |tail|, _ => 0) + tail)
  }

  /** Version, stream number and the bytes that follow them. */
  function SplitPayload(p: seq<byte>): Option<Decoded> {
    var ver := Varint.Decode(p);
    if ver.None? || ver.value.0 < 2 || ver.value.0 > 4 then None else
    var str := Varint.Decode(p[ver.value.1..]);
    if str.None? then None
    else Some(Decoded(ver.value.0, str.value.0, p[ver.value.1 + str.value.1..]))
  }

  function DecodePayload(p: seq<byte>): Option<Decoded> {
    var parts := SplitPayload(p);
    if parts.None? then None else
    var ripe := RipeOf(parts.value.version, parts.value.ripe);
    if ripe.None? then None else Some(parts.value.(ripe := ripe.value))
  }

  /** The payload of a byte string that ends in its own checksum. */
  function CheckedPayload(sum: Checksum, data: seq<byte>): Option<seq<byte>> {
    if |data| < 4 || sum(data[..|data| - 4]) != data[|data| - 4..] then None else Some(data[..|data| - 4])
  }

  function DecodeText(sum: Checksum, text: string): Option<Decoded> {
    var data := Base58.Decoding(Base58Part(text));
    if data.None? then None else
    var payload := CheckedPayload(sum, data.value);
    if payload.None? then None else DecodePayload(payload.value)
  }

  /** The two varints at the front of a payload, by an advancing offset. */
  method ReadPayload(payload: seq<byte>) returns (r: Option<Decoded>)
    ensures r == SplitPayload(payload)
  {
    var offset := 0;
    var consumed := Varint.Decode(payload);
    if consumed.None? || consumed.value.0 < 2 || consumed.value.0 > 4 {
      return None;
    }
    var version := consumed.value.0;
    offset := offset + consumed.value.1;
    consumed := Varint.Decode(payload[offset..]);
    if consumed.None? {
      return None;
    }
    var stream := consumed.value.0;
    offset := offset + consumed.value.1;
    r := Some(Decoded(version, stream, payload[offset..]));
  }

  /** `bm_address_decode`; the ripe goes to the caller's buffer, which a rejected text leaves alone. */
  method Decode(sum: Checksum, text: string, outRipe: array<byte>) returns (r: Option<(uint64, uint64)>)
    requires outRipe.Length == RIPE_LEN
    modifies outRipe
    ensures r.None? <==> DecodeText(sum, text).None?
    ensures r.Some? ==> DecodeText(sum, text) == Some(Decoded(r.value.0, r.value.1, outRipe[..]))
    ensures r.None? ==> outRipe[..] == old(outRipe[..])
  {
    var part := if |text| >= 3 && text[..3] == "BM-" then text[3..] else text;
    var data := Base58.Decode(part);
    if data.None? {
      return None;
    }
    var payload := CheckedPayload(sum, data.value);
    if payload.None? {
      return None;
    }
    r := DecodeInto(payload.value, outRipe);
  }

  method DecodeInto(payload: seq<byte>, outRipe: array<byte>) returns (r: Option<(uint64, uint64)>)
    requires outRipe.Length == RIPE_LEN
    modifies outRipe
    ensures r.None? <==> DecodePayload(payload).None?
    ensures r.Some? ==> DecodePayload(payload) == Some(Decoded(r.value.0, r.value.1, outRipe[..]))
    ensures r.None? ==> outRipe[..] == old(outRipe[..])
  {
    var parts := ReadPayload(payload);
    if parts.None? {
      return None;
    }
    var Decoded(version, stream, ripeData) := parts.value;
    if version == 4 {
      if |ripeData| < 4 || |ripeData| > 20 || ripeData[0] == 0 {
        return None;
      }
    } else if |ripeData| > RIPE_LEN {
      return None;
    }
    PadInto(outRipe, ripeData);
    r := Some((version, stream));
  }

  /** Zero bytes, then the given tail, filling the ripe buffer. */
  method PadInto(outRipe: array<byte>, tail: seq<byte>)
    requires |tail| <= outRipe.Length
    modifies outRipe
    ensures outRipe[..] == seq(outRipe.Length - |tail|, _ => 0) + tail
  {
    var pad := outRipe.Length - |tail|;
    CopyInto(outRipe, 0, seq(pad, _ => 0));
    assert outRipe[..pad] == outRipe[0..0 + pad];
    CopyInto(outRipe, pad, tail);
    assert outRipe[..] == outRipe[..pad] + outRipe[pad..pad + |tail|];
  }

  // ------------------------------------------------------------- round trips

  /** The payload of an address splits back into its three parts. */
  lemma PayloadSplits(version: uint64, stream: uint64, tail: seq<byte>)
    ensures var p := Encoded(version) + Encoded(stream) + tail;
            && Varint.Decode(p) == Some((version, Size(version)))
            && Varint.Decode(p[Size(version)..]) == Some((stream, Size(stream)))
            && p[Size(version) + Size(stream)..] == tail
  {
    var p := Encoded(version) + Encoded(stream) + tail;
    assert p == Encoded(version) + (Encoded(stream) + tail);
    RoundTrip(version, Encoded(stream) + tail);
    assert p[Size(version)..] == Encoded(stream) + tail;
    RoundTrip(stream, tail);
  }

  /** Base58 and checksum are transparent for a payload that starts with a non-zero byte. */
  lemma TextOpens(sum: Checksum, payload: seq<byte>)
    requires |payload| > 0 && payload[0] != 0
    ensures DecodeText(sum, "BM-" + Base58.Encoding(payload + sum(payload))) == DecodePayload(payload)
  {
    var data := payload + sum(payload);
    var s := Base58.Encoding(data);
    var text := "BM-" + s;
    assert text[..3] == "BM-" && text[3..] == s;
    Base58.DecodeEncode(data);
    assert data[..|data| - 4] == payload;
    assert data[|data| - 4..] == sum(payload);
  }

  /** The text of an address decodes to exactly what its payload decodes to. */
  lemma TextDecodes(sum: Checksum, version: uint64, stream: uint64, ripe: seq<byte>)
    requires version >= 1
    ensures DecodeText(sum, Text(sum, version, stream, ripe)) == DecodePayload(Payload(version, stream, ripe))
  {
    TextOpens(sum, Payload(version, stream, ripe));
  }

  /** Putting the trimmed zeros back gives the ripe. */
  lemma TrimRestores(version: uint64, ripe: seq<byte>)
    requires |ripe| == RIPE_LEN
    ensures var tail := ripe[TrimCount(version, ripe)..];
            seq(RIPE_LEN - |tail|, _ => 0) + tail == ripe
  {
  }

  /**
   Decoding inverts encoding for versions 2 and 3 always, for version 4 exactly
   when at least four bytes remain after the zeros are stripped; every other
   version, and a shorter version-4 remainder, is rejected.
   */
  lemma DecodeEncode(sum: Checksum, version: uint64, stream: uint64, ripe: seq<byte>)
    requires version >= 1 && |ripe| == RIPE_LEN
    ensures DecodeText(sum, Text(sum, version, stream, ripe)) ==
            if version == 2 || version == 3 || (version == 4 && Base58.LeadingZeros(ripe) <= 16)
            then Some(Decoded(version, stream, ripe)) else None
  {
    hide DecodeText, Text, DecodePayload, Payload, Base58.LeadingZeros;
    TextDecodes(sum, version, stream, ripe);
    PayloadDecodes(version, stream, ripe);
  }

  lemma PayloadDecodes(version: uint64, stream: uint64, ripe: seq<byte>)
    requires |ripe| == RIPE_LEN
    ensures DecodePayload(Payload(version, stream, ripe)) ==
            if version == 2 || version == 3 || (version == 4 && Base58.LeadingZeros(ripe) <= 16)
            then Some(Decoded(version, stream, ripe)) else None
  {
    hide SplitPayload, RipeOf, Payload, TrimCount, Base58.LeadingZeros;
    PayloadParts(version, stream, ripe);
    if 2 <= version <= 4 {
      RipeRestored(version, ripe);
    }
  }

  lemma PayloadParts(version: uint64, stream: uint64, ripe: seq<byte>)
    ensures SplitPayload(Payload(version, stream, ripe)) ==
            if 2 <= version <= 4 then Some(Decoded(version, stream, ripe[TrimCount(version, ripe)..])) else None
  {
    hide Varint.Decode, Encoded, Size, TrimCount;
    PayloadSplits(version, stream, ripe[TrimCount(version, ripe)..]);
  }

  /** Versions 2 and 3 always get their ripe back, version 4 when enough of it was left. */
  lemma RipeRestored(version: uint64, ripe: seq<byte>)
    requires 2 <= version <= 4 && |ripe| == RIPE_LEN
    ensures RipeOf(version, ripe[TrimCount(version, ripe)..]) ==
            if version < 4 || Base58.LeadingZeros(ripe) <= 16 then Some(ripe) else None
  {
    TrimRestores(version, ripe);
  }

  /** Whatever text was accepted, the canonical text of its parts decodes to the same parts. */
  lemma ReencodeStable(sum: Checksum, text: string)
    requires DecodeText(sum, text).Some?
    ensures var d := DecodeText(sum, text).value;
            && |d.ripe| == RIPE_LEN
            && DecodeText(sum, Text(sum, d.version, d.stream, d.ripe)) == Some(d)
  {
    var d := DecodeText(sum, text).value;
    var tail := SplitPayload(CheckedPayload(sum, Base58.Decoding(Base58Part(text)).value).value).value.ripe;
    assert d.ripe == seq(RIPE_LEN - |tail|, _ => 0) + tail;
    if d.version == 4 {
      assert d.ripe[RIPE_LEN - |tail|] != 0;
    }
    DecodeEncode(sum, d.version, d.stream, d.ripe);
  }

  /**
   A payload that stands for an address: version and stream in any spelling, then the ripe without
   some of its leading zeros, without all of them in version 4.
   */
  ghost predicate SpelledAs(p: seq<byte>, d: Decoded) {
    && 2 <= d.version <= 4
    && exists v, s, tail: seq<byte> ::
         Spells(v, d.version) && Spells(s, d.stream) && p == v + s + tail && Trimmed(d.version, d.ripe, tail)
  }

  ghost predicate Trimmed(version: uint64, ripe: seq<byte>, tail: seq<byte>) {
    && |tail| <= RIPE_LEN && ripe == seq(RIPE_LEN - |tail|, _ => 0) + tail
    && (version == 4 ==> |tail| >= 4 && tail[0] != 0)
  }

  /** The data is such a payload and its checksum. */
  ghost predicate Stands(sum: Checksum, data: seq<byte>, d: Decoded) {
    exists p :: SpelledAs(p, d) && data == p + sum(p)
  }

  lemma RipeExact(version: uint64, ripe: seq<byte>, tail: seq<byte>)
    requires 2 <= version <= 4
    ensures RipeOf(version, tail) == Some(ripe) <==> Trimmed(version, ripe, tail)
  {
  }

  /** A payload decodes exactly if it can be cut into two varints and a trimmed ripe. */
  lemma PayloadExact(p: seq<byte>, d: Decoded)
    ensures DecodePayload(p) == Some(d) <==> SpelledAs(p, d)
  {
    hide Spells, Varint.Decode, Trimmed, RipeOf;
    if DecodePayload(p) == Some(d) {
      var m := Varint.Decode(p).value.1;
      var n := Varint.Decode(p[m..]).value.1;
      DecodeExact(p, d.version, m);
      DecodeExact(p[m..], d.stream, n);
      RipeExact(d.version, d.ripe, p[m + n..]);
      assert p == p[..m] + p[m..][..n] + p[m + n..];
    }
    if SpelledAs(p, d) {
      var v, s, tail: seq<byte> :|
        Spells(v, d.version) && Spells(s, d.stream) && p == v + s + tail && Trimmed(d.version, d.ripe, tail);
      SpelledPayload(v, s, tail, d);
    }
  }

  lemma SpelledPayload(v: seq<byte>, s: seq<byte>, tail: seq<byte>, d: Decoded)
    requires 2 <= d.version <= 4 && Spells(v, d.version) && Spells(s, d.stream) && Trimmed(d.version, d.ripe, tail)
    ensures DecodePayload(v + s + tail) == Some(d)
  {
    hide Spells, Varint.Decode, Trimmed, RipeOf;
    var p := v + s + tail;
    assert p[..|v|] == v && p[|v|..] == s + tail && (s + tail)[..|s|] == s && p[|v| + |s|..] == tail;
    DecodeExact(p, d.version, |v|);
    DecodeExact(s + tail, d.stream, |s|);
    RipeExact(d.version, d.ripe, tail);
  }

  lemma ChecksumExact(sum: Checksum, data: seq<byte>, payload: seq<byte>)
    ensures CheckedPayload(sum, data) == Some(payload) <==> data == payload + sum(payload)
  {
    if |data| >= 4 {
      Ends(data[..|data| - 4], data[|data| - 4..]);
      assert data == data[..|data| - 4] + data[|data| - 4..];
    }
    Ends(payload, sum(payload));
  }

  lemma Ends(a: seq<byte>, b: seq<byte>)
    requires |b| == 4
    ensures var data := a + b; data[..|data| - 4] == a && data[|data| - 4..] == b
  {
  }

  /** The text is base 58 of bytes that stand for an address, with or without "BM-" in front. */
  ghost predicate Names(sum: Checksum, text: string, d: Decoded) {
    exists b58 :: (text == "BM-" + b58 || text == b58) && Base58.Decoding(b58).Some?
                  && Stands(sum, Base58.Decoding(b58).value, d)
  }

  /** Exactly these texts are accepted, and each as the address that it names. */
  lemma AcceptedExact(sum: Checksum, text: string, d: Decoded)
    ensures DecodeText(sum, text) == Some(d) <==> Names(sum, text, d)
  {
    hide Base58.Decoding, DecodePayload, CheckedPayload, SpelledAs, Base58Part;
    if DecodeText(sum, text) == Some(d) {
      var part := Base58Part(text);
      var data := Base58.Decoding(part).value;
      var p := CheckedPayload(sum, data).value;
      ChecksumExact(sum, data, p);
      PayloadExact(p, d);
      PartIs(text);
    }
    if Names(sum, text, d) {
      var b58 :| (text == "BM-" + b58 || text == b58) && Base58.Decoding(b58).Some?
                 && Stands(sum, Base58.Decoding(b58).value, d);
      var p :| SpelledAs(p, d) && Base58.Decoding(b58).value == p + sum(p);
      NoDash(b58);
      PartOf(text, b58);
      ChecksumExact(sum, p + sum(p), p);
      PayloadExact(p, d);
    }
  }

  lemma PartIs(text: string)
    ensures text == Base58Part(text) || text == "BM-" + Base58Part(text)
  {
  }

  /** "BM-" is no base 58, so it is clear where it belongs. */
  lemma NoDash(b58: string)
    requires Base58.Decoding(b58).Some?
    ensures forall i :: 0 <= i < |b58| ==> b58[i] != '-'
  {
    hide Base58.ToBytes, Base58.DigitsOf, Value;
    assert forall i :: 0 <= i < |b58| ==> Base58.InAlphabet(b58[i]);
  }

  lemma PartOf(text: string, b58: string)
    requires (text == "BM-" + b58 || text == b58) && forall i :: 0 <= i < |b58| ==> b58[i] != '-'
    ensures Base58Part(text) == b58
  {
    if text == "BM-" + b58 {
      assert text[..3] == "BM-" && text[3..] == b58;
    }
    assert |text| >= 3 && text[..3] == "BM-" ==> text[2] == '-' by {
      assert |text| >= 3 ==> text[..3][2] == text[2];
    }
  }

  /** Distinct identities that decode at all have distinct texts. */
  lemma TextInjective(sum: Checksum, a: Decoded, b: Decoded)
    requires |a.ripe| == RIPE_LEN && |b.ripe| == RIPE_LEN && a.version >= 1 && b.version >= 1
    requires DecodeText(sum, Text(sum, a.version, a.stream, a.ripe)).Some?
    requires Text(sum, a.version, a.stream, a.ripe) == Text(sum, b.version, b.stream, b.ripe)
    ensures a == b
  {
    DecodeEncode(sum, a.version, a.stream, a.ripe);
    DecodeEncode(sum, b.version, b.stream, b.ripe);
  }

  // --------------------------------------------------------------------- WIF

  function WifText(sum: Checksum, key: seq<byte>): string {
    var raw := [0x80] + key;
    Base58.Encoding(raw + sum(raw))
  }

  /** `bm_address_encode_wif` */
  method EncodeWif(sum: Checksum, key: seq<byte>) returns (r: string)
    requires |key| == KEY_LEN
    ensures r == WifText(sum, key)
  {
    var raw := new byte[1 + KEY_LEN + 4](_ => 0);
    raw[0] := 0x80;
    CopyInto(raw, 1, key);
    assert raw[..1 + KEY_LEN] == raw[..1] + raw[1..1 + KEY_LEN];
    assert raw[..1 + KEY_LEN] == [0x80] + key;
    AppendChecksum(sum, raw);
    var text := Base58.Encode(raw[..]);
    r := text.value;
  }

  function WifKey(sum: Checksum, wif: string): Option<seq<byte>> {
    var data := Base58.Decoding(wif);
    if data.None? || |data.value| != 1 + KEY_LEN + 4 || data.value[0] != 0x80 then None
    else if sum(data.value[..1 + KEY_LEN]) != data.value[1 + KEY_LEN..] then None
    else Some(data.value[1..1 + KEY_LEN])
  }

  /** `bm_address_decode_wif` */
  method DecodeWif(sum: Checksum, wif: string) returns (r: Option<seq<byte>>)
    ensures r == WifKey(sum, wif)
  {
    var data := Base58.Decode(wif);
    if data.None? {
      return None;
    }
    if |data.value| != 1 + KEY_LEN + 4 || data.value[0] != 0x80 {
      return None;
    }
    if sum(data.value[..1 + KEY_LEN]) != data.value[1 + KEY_LEN..] {
      return None;
    }
    r := Some(data.value[1..1 + KEY_LEN]);
  }

  /** Every private key survives the trip through WIF. */
  lemma WifRoundTrip(sum: Checksum, key: seq<byte>)
    requires |key| == KEY_LEN
    ensures WifKey(sum, WifText(sum, key)) == Some(key)
  {
    var raw := [0x80] + key;
    var data := raw + sum(raw);
    Base58.DecodeEncode(data);
    assert data[..1 + KEY_LEN] == raw && data[1 + KEY_LEN..] == sum(raw);
    assert data[1..1 + KEY_LEN] == key;
  }

  /**
   A text accepted as the WIF form of a key is that form with any number of `1`s in front;
   it re-encodes to itself exactly when it has none.
   */
  lemma WifAccepted(sum: Checksum, wif: string)
    requires WifKey(sum, wif).Some?
    ensures var key := WifKey(sum, wif).value;
            && |key| == KEY_LEN && WifText(sum, key) == Base58.DropOnes(wif)
            && |wif| > 0 && (WifText(sum, key) == wif <==> wif[0] != '1')
  {
    hide Base58.Encoding, Base58.DropOnes;
    var data := Base58.Decoding(wif).value;
    var key := data[1..1 + KEY_LEN];
    var raw := [0x80] + key;
    assert raw == data[..1 + KEY_LEN];
    assert data == raw + sum(raw);
    Base58.EncodeDecode(wif);
  }

  /** Every key is also accepted in a text that is not its WIF form. */
  lemma WifLeadingOne(sum: Checksum, key: seq<byte>)
    requires |key| == KEY_LEN
    ensures WifKey(sum, "1" + WifText(sum, key)) == Some(key)
  {
    hide Base58.Decoding, WifText;
    WifRoundTrip(sum, key);
    Base58.DecodeLeadingOne(WifText(sum, key));
  }

  // ---------------------------------------------------- other texts of an address

  /** The decoder takes the text without its prefix. */
  lemma PrefixOptional(sum: Checksum, s: string)
    requires |s| < 3 || s[..3] != "BM-"
    ensures DecodeText(sum, "BM-" + s) == DecodeText(sum, s)
  {
    assert ("BM-" + s)[..3] == "BM-" && ("BM-" + s)[3..] == s;
  }

  lemma BehindPrefix(s: string)
    ensures Base58Part("BM-" + s) == s
  {
    assert ("BM-" + s)[..3] == "BM-" && ("BM-" + s)[3..] == s;
  }

  /** The decoder takes any number of `1`s behind the prefix. */
  lemma OnesIgnored(sum: Checksum, s: string, k: nat)
    requires Base58.Decoding(s).Some?
    ensures DecodeText(sum, "BM-" + (Base58.Ones(k) + s)) == DecodeText(sum, "BM-" + s)
  {
    hide Base58.Decoding, CheckedPayload, DecodePayload, Base58Part;
    Base58.DecodeOnes(s, k);
    BehindPrefix(Base58.Ones(k) + s);
    BehindPrefix(s);
  }

  /** What is behind the prefix of an address. */
  function Bare(sum: Checksum, version: uint64, stream: uint64, ripe: seq<byte>): string {
    var data := Payload(version, stream, ripe);
    Base58.Encoding(data + sum(data))
  }

  /**
   Every version 3 address has texts besides its own that the decoder takes for it: without
   the prefix, and with any number of `1`s behind the prefix, however long that makes it.
   */
  lemma OtherTexts(sum: Checksum, stream: uint64, ripe: seq<byte>, k: nat)
    requires |ripe| == RIPE_LEN
    ensures var bare := Bare(sum, 3, stream, ripe);
            && Text(sum, 3, stream, ripe) == "BM-" + bare && bare != "BM-" + bare
            && DecodeText(sum, bare) == Some(Decoded(3, stream, ripe))
            && DecodeText(sum, "BM-" + (Base58.Ones(k) + bare)) == Some(Decoded(3, stream, ripe))
  {
    var bare := Bare(sum, 3, stream, ripe);
    assert |bare| != |"BM-" + bare|;
    DecodeEncode(sum, 3, stream, ripe);
    BareDecodes(sum, 3, stream, ripe);
    hide DecodeText, Base58.Decoding;
    assert |bare| >= 3 ==> bare[..3][2] == bare[2];
    PrefixOptional(sum, bare);
    OnesIgnored(sum, bare, k);
  }

  lemma BareDecodes(sum: Checksum, version: uint64, stream: uint64, ripe: seq<byte>)
    ensures var bare := Bare(sum, version, stream, ripe);
            Base58.Decoding(bare).Some? && forall i :: 0 <= i < |bare| ==> Base58.InAlphabet(bare[i])
  {
    var data := Payload(version, stream, ripe);
    Base58.DecodeEncode(data + sum(data));
  }

  /** The text of an address of version 4 is well below 63 characters. */
  lemma TextShort(sum: Checksum, stream: uint64, ripe: seq<byte>)
    requires |ripe| == RIPE_LEN
    ensures |Text(sum, 4, stream, ripe)| <= 54
  {
    hide TrimCount, Base58.Encoding;
    var data := Payload(4, stream, ripe);
    assert Encoded(4) == [4];
    assert |Encoded(stream)| <= 9;
    Base58.EncodingShort(data + sum(data), 17);
  }
}
