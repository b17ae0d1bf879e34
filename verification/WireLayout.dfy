/**
 The bytes on the wire, position by position: what the encoders of the other modules put
 where, stated without them, so that a peer with its own encoders can read it.
 */
module WireLayout {
  import opened Numerals
  import opened Varint
  import opened Objects
  import opened Messages
  import opened DandelionIndex
  import Inventory
  import Address
  import Base58
  import Base32

  /** The bytes of an ASCII text. */
  function Ascii(s: string): (r: seq<byte>)
    requires forall i :: 0 <= i < |s| ==> s[i] < 128 as char
    ensures |r| == |s|
  {
    seq(|s|, i requires 0 <= i < |s| => s[i] as byte)
  }

  // --------------------------------------------------------------------- numbers

  lemma BytesOf2(v: nat)
    requires v < 0x1_0000
    ensures BigEndian(v, 2) == [v / 0x100, v % 0x100]
  {
    assert BigEndian(v / 256, 1) == [v / 256 % 256];
  }

  lemma BytesOf4(v: nat)
    requires v < TWO32
    ensures BigEndian(v, 4) == [v / 0x100_0000, v / 0x1_0000 % 0x100, v / 0x100 % 0x100, v % 0x100]
  {
    BytesOf2(v / 0x1_0000);
    assert v / 256 / 256 == v / 0x1_0000;
    assert BigEndian(v, 4) == BigEndian(v / 256 / 256, 2) + [v / 256 % 256] + [v % 256];
  }

  lemma BytesOf8(v: nat)
    requires v < TWO64
    ensures BigEndian(v, 8) == BigEndian(v / TWO32, 4) + BigEndian(v % TWO32, 4)
  {
    hide BigEndian, Value, Pow;
    var high, low := v / TWO32, v % TWO32;
    ValueConcat(256, BigEndian(high, 4), BigEndian(low, 4));
    Powers();
    BigEndianValue(high, 4);
    BigEndianValue(low, 4);
    BigEndianUnique(BigEndian(high, 4) + BigEndian(low, 4));
  }

  /** A varint: one byte below 253, or 253, 254 or 255 and two, four or eight bytes, highest first. */
  lemma VarintBytes(v: uint64)
    ensures v < 253 ==> Encoded(v) == [v]
    ensures 253 <= v < 0x1_0000 ==> Encoded(v) == [253, v / 0x100, v % 0x100]
    ensures 0x1_0000 <= v < TWO32 ==>
              Encoded(v) == [254, v / 0x100_0000, v / 0x1_0000 % 0x100, v / 0x100 % 0x100, v % 0x100]
    ensures TWO32 <= v ==> Encoded(v) == [255] + BigEndian(v / TWO32, 4) + BigEndian(v % TWO32, 4)
  {
    hide BigEndian;
    if v < 0x1_0000 {
      BytesOf2(v);
    } else if v < TWO32 {
      BytesOf4(v);
    } else {
      BytesOf8(v);
    }
  }

  /** The time of expiry, the kind, the version and the stream, in this order. */
  lemma HeaderBytes(expires: uint64, kind: uint32, version: uint64, stream: uint64)
    requires version < 253 && stream < 253
    ensures var h := CommonHeader(expires, kind, version, stream);
            && |h| == 14 && Be64(h) == expires
            && h[8] == kind / 0x100_0000 && h[9] == kind / 0x1_0000 % 0x100 && h[10] == kind / 0x100 % 0x100
            && h[11] == kind % 0x100 && h[12] == version && h[13] == stream
  {
    BytesOf4(kind);
    VarintBytes(version);
    VarintBytes(stream);
    var h := CommonHeader(expires, kind, version, stream);
    Be64RoundTrip(expires, BigEndian(kind, 4) + [version, stream]);
    assert h == BigEndian(expires, 8) + (BigEndian(kind, 4) + [version, stream]);
  }

  /** The numbers of the kinds of objects; that of an onionpeer spells "tor". */
  lemma KindBytes()
    ensures BigEndian(PUBKEY, 4) == [0, 0, 0, 1] && BigEndian(MSG, 4) == [0, 0, 0, 2]
    ensures BigEndian(ONIONPEER, 4) == [0] + Ascii("tor")
  {
    hide BigEndian;
    BytesOf4(PUBKEY);
    BytesOf4(MSG);
    BytesOf4(ONIONPEER);
    assert Ascii("tor") == [0x74, 0x6f, 0x72];
  }

  // -------------------------------------------------------------------- messages

  lemma KeyLayout(doesAck: bool, signing: seq<byte>, encryption: seq<byte>)
    requires |signing| == 65 && |encryption| == 65
    ensures KeyBytes(doesAck, signing, encryption) ==
            [0, 0, 0, if doesAck then 1 else 0] + signing[1..] + encryption[1..]
  {
    BytesOf4(if doesAck then 1 else 0);
  }

  /** The sender: version, stream, flags, both keys without their first byte, and from version 3 the difficulty. */
  lemma SenderLayout(from: Sender)
    requires |from.pubSigning| == 65 && |from.pubEncryption| == 65 && from.version < 253 && from.stream < 253
    ensures var front := [from.version, from.stream, 0, 0, 0, if from.doesAck then 1 else 0]
                         + from.pubSigning[1..] + from.pubEncryption[1..];
            && (from.version < 3 ==> SenderBytes(from) == front)
            && (from.version >= 3 ==> SenderBytes(from) == front + Encoded(from.trials) + Encoded(from.extra))
  {
    hide Encoded, KeyBytes;
    KeyLayout(from.doesAck, from.pubSigning, from.pubEncryption);
    VarintBytes(from.version);
    VarintBytes(from.stream);
    var numbers, flags := [from.version, from.stream], [0, 0, 0, if from.doesAck then 1 else 0];
    assert [from.version] + [from.stream] == numbers;
    assert numbers + (flags + from.pubSigning[1..] + from.pubEncryption[1..]) ==
           numbers + flags + from.pubSigning[1..] + from.pubEncryption[1..];
    assert numbers + flags == [from.version, from.stream, 0, 0, 0, if from.doesAck then 1 else 0];
    Assoc(SenderFront(from), Encoded(from.trials), Encoded(from.extra));
    assert SenderFront(from) + [] == SenderFront(from);
  }

  function SenderFront(from: Sender): seq<byte>
    requires |from.pubSigning| == 65 && |from.pubEncryption| == 65
  {
    Encoded(from.version) + Encoded(from.stream) + KeyBytes(from.doesAck, from.pubSigning, from.pubEncryption)
  }

  /** The recipient's ripe, the encoding, then the message and the ack behind their lengths. */
  lemma ContentLayout(toRipe: seq<byte>, message: seq<byte>, ack: seq<byte>)
    requires |message| < 253 && |ack| < 253
    ensures ContentBytes(toRipe, message, ack) == toRipe + [2, |message|] + message + [|ack|] + ack
  {
    hide Encoded;
    VarintBytes(2);
    VarintBytes(|message|);
    VarintBytes(|ack|);
    var front := toRipe + [2];
    Assoc(front, [|message|], message);
    Assoc(front + [|message|] + message, [|ack|], ack);
    assert toRipe + [2] + [|message|] == toRipe + [2, |message|];
  }

  lemma SimpleLayout(subject: seq<byte>, body: seq<byte>)
    ensures SimpleText(subject, body) == Ascii("Subject:") + subject + Ascii("\nBody:") + body
  {
    assert SUBJECT == Ascii("Subject:") && BODY == Ascii("\nBody:");
  }

  /** The number of hashes, and the hashes in their order. */
  lemma InventoryLayout(a: Hash, b: Hash)
    ensures Inventory.Payload([]) == [0] && Inventory.Payload([a]) == [1] + a
    ensures Inventory.Payload([a, b]) == [2] + a + b
  {
    hide Encoded, Inventory.Joined;
    Inventory.JoinedNone();
    Inventory.JoinedSnoc([], a);
    Inventory.JoinedSnoc([a], b);
    assert [] + [a] == [a] && [a] + [b] == [a, b];
    VarintBytes(0);
    VarintBytes(1);
    VarintBytes(2);
    Assoc([2], a, b);
  }

  // ----------------------------------------------------------------------- texts

  /** A letter or digit that does not look like another one. */
  predicate Plain58(c: char) {
    ('0' <= c <= '9' || 'A' <= c <= 'Z' || 'a' <= c <= 'z') && c != '0' && c != 'O' && c != 'I' && c != 'l'
  }

  /** The base-58 digits are these characters, in the order of their codes. */
  lemma Alphabet58(c: char, d: char)
    ensures Base58.InAlphabet(c) <==> Plain58(c)
    ensures Plain58(c) && Plain58(d) ==> (Base58.DigitOf(c) < Base58.DigitOf(d) <==> c < d)
    ensures Base58.DigitOf('1') == 0 && Base58.DigitOf('z') == 57
  {
  }

  /** Exactly the texts of such characters decode, the empty one apart. */
  lemma Accepted58(s: string)
    ensures Base58.Decoding(s).Some? <==> s != "" && forall i :: 0 <= i < |s| ==> Plain58(s[i])
  {
    hide Base58.ToBytes, Base58.DigitsOf, Value;
  }

  /** The base-32 digits are the small letters and the digits from 2 to 7, in this order. */
  lemma Alphabet32(c: char)
    ensures Base32.InAlphabet(c) <==> 'a' <= c <= 'z' || '2' <= c <= '7'
    ensures 'a' <= c <= 'z' ==> Base32.DigitOf(c) == (c - 'a') as int
    ensures '2' <= c <= '7' ==> Base32.DigitOf(c) == 26 + (c - '2') as int
  {
  }

  lemma ValueOf1(x: int)
    ensures Value(32, [x]) == x && Value(256, [x]) == x
  {
    ValueSnoc(32, [], x);
    ValueSnoc(256, [], x);
    assert [] + [x] == [x];
    assert Value(32, []) == 0 && Value(256, []) == 0;
  }

  /** One byte in base 32: its upper five bits, then its lower three and two zero bits. */
  lemma OneByte32(x: byte)
    ensures Base32.Encoding([x]) == [Base32.CharOf(x / 8), Base32.CharOf(x % 8 * 4)]
  {
    Base32.EncodingValue([x], 2);
    var s := Base32.Encoding([x]);
    var ds := [x / 8, x % 8 * 4];
    ValueOf1(x);
    ValueOf1(x / 8);
    ValueSnoc(32, [x / 8], x % 8 * 4);
    assert [x / 8] + [x % 8 * 4] == ds;
    assert Pow(2, 2) == 4 by { assert Pow(2, 1) == 2; }
    ValueUnique(32, Base32.DigitsOf(s), ds);
    assert s[0] == Base32.CharOf(ds[0]) && s[1] == Base32.CharOf(ds[1]);
  }

  /** Behind "BM-", in base 58: version, stream, the ripe with some of its leading zeros left out, and the checksum. */
  lemma AddressBytes(sum: Address.Checksum, version: uint64, stream: uint64, ripe: seq<byte>, zeros: nat)
    requires |ripe| == Address.RIPE_LEN && 2 <= version < 253 && stream < 253
    requires zeros <= 20 && (forall i :: 0 <= i < zeros ==> ripe[i] == 0) && (zeros < 20 ==> ripe[zeros] != 0)
    ensures var left := if version == 4 then zeros else if version > 4 then 0 else if zeros > 2 then 2 else zeros;
            var data := [version, stream] + ripe[left..];
            && |Address.Text(sum, version, stream, ripe)| > 3
            && Address.Text(sum, version, stream, ripe)[..3] == "BM-"
            && Base58.Decoding(Address.Text(sum, version, stream, ripe)[3..]) == Some(data + sum(data))
  {
    hide Encoded, Base58.Encoding, Base58.Decoding;
    VarintBytes(version);
    VarintBytes(stream);
    var left := Address.TrimCount(version, ripe);
    var data := Address.Payload(version, stream, ripe);
    assert [version] + [stream] == [version, stream];
    assert data == [version, stream] + ripe[left..];
    Base58.DecodeEncode(data + sum(data));
    var text := Address.Text(sum, version, stream, ripe);
    assert text[3..] == Base58.Encoding(data + sum(data));
    SomeText(data + sum(data));
  }

  lemma SomeText(data: seq<byte>)
    requires Base58.Decoding(Base58.Encoding(data)).Some?
    ensures |Base58.Encoding(data)| > 0
  {
    hide Base58.Encoding;
  }

  /** In base 58: the byte 128, the key and the checksum over both. */
  lemma WifBytes(sum: Address.Checksum, key: seq<byte>)
    ensures Base58.Decoding(Address.WifText(sum, key)) == Some([128] + key + sum([128] + key))
  {
    Base58.DecodeEncode([128] + key + sum([128] + key));
  }
}
