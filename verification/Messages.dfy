/**
 Signed and encrypted objects: what src/core/message_builder.c builds,
 src/core/trial_decrypt.c and src/core/pubkey_cache.c take apart. Cryptography
 is a parameter, restricted only by the laws in `Sound`.
 */
module Messages {
  import opened Numerals
  import opened Varint
  import opened Objects
  import Address

  /** The primitives: keys, signatures, ECIES, ripe, and the two halves of the address secret. */
  datatype Crypto = Crypto(
    pubOf: seq<byte> -> seq<byte>,
    sign: (seq<byte>, seq<byte>) -> seq<byte>,
    verify: (seq<byte>, seq<byte>, seq<byte>) -> bool,
    encrypt: (seq<byte>, seq<byte>, seq<byte>) -> seq<byte>,
    decrypt: (seq<byte>, seq<byte>) -> Option<seq<byte>>,
    ripe: (seq<byte>, seq<byte>) -> seq<byte>,
    secretOf: seq<byte> -> seq<byte>,
    tagOf: seq<byte> -> seq<byte>,
    sum: Address.Checksum)

  /** A signature verifies under its own key; a ciphertext opens under its own key and under no other. */
  ghost predicate Sound(c: Crypto) {
    && (forall m, k :: c.verify(m, c.sign(m, k), c.pubOf(k)))
    && (forall m, k, r :: c.decrypt(c.encrypt(m, c.pubOf(k), r), k) == Some(m))
    && (forall m, k, r, k' :: c.decrypt(c.encrypt(m, c.pubOf(k), r), k').Some? ==> c.pubOf(k') == c.pubOf(k))
  }

  /** A signature that verifies was made with that key over those bytes; `signed` is what was ever made. */
  ghost predicate Unforgeable(c: Crypto, signed: (seq<byte>, seq<byte>, seq<byte>) -> bool) {
    forall m, sig, pub :: c.verify(m, sig, pub) ==> signed(m, pub, sig)
  }

  /** Signatures have a length that fits an `int`, tags are 32 bytes. */
  ghost predicate Sized(c: Crypto) {
    && (forall m, k :: |c.sign(m, k)| < INT_LIMIT)
    && (forall d :: |c.tagOf(d)| == 32)
  }

  function Sign(c: Crypto, m: seq<byte>, k: seq<byte>): (sig: seq<byte>)
    requires Sized(c)
    ensures |sig| < INT_LIMIT
  {
    c.sign(m, k)
  }

  function Tag(c: Crypto, d: seq<byte>): (tag: seq<byte>)
    requires Sized(c)
    ensures |tag| == 32
  {
    c.tagOf(d)
  }

  lemma SignatureVerifies(c: Crypto, m: seq<byte>, k: seq<byte>)
    requires Sound(c)
    ensures c.verify(m, c.sign(m, k), c.pubOf(k))
  {
  }

  /** Exactly the holders of the key open a ciphertext, and all of them read the same. */
  lemma CiphertextOpens(c: Crypto, m: seq<byte>, k: seq<byte>, r: seq<byte>, k': seq<byte>)
    requires Sound(c)
    ensures c.decrypt(c.encrypt(m, c.pubOf(k), r), k') == Some(m) <==> c.pubOf(k') == c.pubOf(k)
    ensures c.decrypt(c.encrypt(m, c.pubOf(k), r), k').Some? <==> c.pubOf(k') == c.pubOf(k)
  {
    if c.pubOf(k') == c.pubOf(k) {
      assert c.decrypt(c.encrypt(m, c.pubOf(k'), r), k') == Some(m);
    }
  }

  /** The outcome of a parser; `OutOfBounds` is a read past the end of its buffer. */
  datatype Parsed<+T> = Refused | Read(value: T) | OutOfBounds

  ghost predicate IsPublicKey(pub: seq<byte>) {
    |pub| == 65 && pub[0] == 0x04
  }

  // ------------------------------------------------------------ simple texts

  const SUBJECT: seq<byte> := [83, 117, 98, 106, 101, 99, 116, 58]
  const BODY: seq<byte> := [10, 66, 111, 100, 121, 58]

  /** `needle` stands in `data` at position `i`. */
  predicate Occurs(data: seq<byte>, needle: seq<byte>, i: nat) {
    i + |needle| <= |data| && data[i..i + |needle|] == needle
  }

  ghost predicate Contains(data: seq<byte>, needle: seq<byte>) {
    exists i: nat :: Occurs(data, needle, i)
  }

  /** The first occurrence at or after `start`. */
  function FirstOccurrence(data: seq<byte>, needle: seq<byte>, start: nat): (r: Option<nat>)
    requires start <= |data|
    ensures r.Some? ==> start <= r.value && Occurs(data, needle, r.value)
    ensures r.Some? ==> forall j: nat :: start <= j < r.value ==> !Occurs(data, needle, j)
    ensures r.None? ==> forall j: nat :: start <= j ==> !Occurs(data, needle, j)
    decreases |data| - start
  {
    if Occurs(data, needle, start) then Some(start)
    else if start == |data| then None
    else FirstOccurrence(data, needle, start + 1)
  }

  function FirstLine(s: seq<byte>): seq<byte> {
    if |s| == 0 || s[0] == 10 then [] else [s[0]] + FirstLine(s[1..])
  }

  function Take(s: seq<byte>, n: nat): seq<byte> {
    if |s| <= n then s else s[..n]
  }

  function SimpleText(subject: seq<byte>, body: seq<byte>): seq<byte> {
    SUBJECT + subject + BODY + body
  }

  /** Subject and body of a simple-encoded text. */
  function DecodeSimple(data: seq<byte>): (seq<byte>, seq<byte>) {
    var i := FirstOccurrence(data, BODY, 0);
    if i.Some? && i.value > 1 then
      (if i.value < 8 then [] else FirstLine(Take(data[8..i.value], 500)), data[i.value + 6..])
    else ([], data)
  }

  lemma TakeSlice(data: seq<byte>, from: nat, to: nat, n: nat)
    requires from <= to <= |data|
    ensures Take(data[from..to], n) == data[from..if to - from <= n then to else from + n]
  {
  }

  /** `decode_simple`: the search loop, the cut at 500 bytes and the cut at the first line break. */
  method DecodeSimpleText(data: seq<byte>) returns (subject: seq<byte>, body: seq<byte>)
    ensures (subject, body) == DecodeSimple(data)
  {
    var bodyIdx: Option<nat> := None;
    var i := 0;
    while i + 6 <= |data|
      invariant bodyIdx.None? && forall j: nat :: j < i ==> !Occurs(data, BODY, j)
      decreases |data| - i
    {
      if data[i..i + 6] == BODY {
        assert Occurs(data, BODY, i);
        bodyIdx := Some(i);
        break;
      }
      i := i + 1;
    }
    assert bodyIdx == FirstOccurrence(data, BODY, 0);
    if bodyIdx.Some? && bodyIdx.value > 1 {
      var subjectLen := if 8 <= bodyIdx.value then bodyIdx.value - 8 else 0;
      if subjectLen > 500 {
        subjectLen := 500;
      }
      if subjectLen == 0 {
        subject := [];
      } else {
        TakeSlice(data, 8, bodyIdx.value, 500);
        subject := CutLine(data[8..8 + subjectLen]);
      }
      body := data[bodyIdx.value + 6..];
    } else {
      subject := [];
      body := data;
    }
  }

  method CutLine(s: seq<byte>) returns (line: seq<byte>)
    ensures line == FirstLine(s)
  {
    var n := |s|;
    var i := 0;
    while i < |s|
      invariant 0 <= i <= |s| && n == |s|
      invariant FirstLine(s) == s[..i] + FirstLine(s[i..])
    {
      if s[i] == 10 {
        n := i;
        break;
      }
      assert s[..i + 1] == s[..i] + [s[i]];
      i := i + 1;
    }
    line := s[..n];
  }

  /** Nothing before the real separator looks like it, unless the subject contains it. */
  lemma SeparatorPosition(subject: seq<byte>, body: seq<byte>, j: nat)
    requires j < 8 + |subject| && Occurs(SimpleText(subject, body), BODY, j)
    ensures 8 <= j && Occurs(subject, BODY, j - 8)
  {
    var data := SimpleText(subject, body);
    var w := data[j..j + 6];
    assert data[j] == w[0] && data[j + 1] == w[1] && data[j + 2] == w[2] && data[j + 3] == w[3]
           && data[j + 4] == w[4] && data[j + 5] == w[5];
    assert data[8 + |subject|] == 10;
    assert j + 6 <= 8 + |subject|;
    assert subject[j - 8..j - 2] == data[j..j + 6];
  }

  /**
   The body comes back exactly when the subject does not contain the separator;
   then the subject comes back as the first line of its first 500 bytes.
   */
  lemma SimpleRoundTrip(subject: seq<byte>, body: seq<byte>)
    ensures DecodeSimple(SimpleText(subject, body)).1 == body <==> !Contains(subject, BODY)
    ensures !Contains(subject, BODY) ==>
              DecodeSimple(SimpleText(subject, body)) == (FirstLine(Take(subject, 500)), body)
  {
    var data := SimpleText(subject, body);
    var n := 8 + |subject|;
    assert data[n..n + 6] == BODY && data[n + 6..] == body && data[8..n] == subject;
    assert Occurs(data, BODY, n);
    var i := FirstOccurrence(data, BODY, 0).value;
    if i < n {
      SeparatorPosition(subject, body, i);
    }
    if Contains(subject, BODY) {
      var k: nat :| Occurs(subject, BODY, k);
      assert data[8 + k..8 + k + 6] == subject[k..k + 6];
      assert Occurs(data, BODY, 8 + k);
      assert i < n;
      assert |DecodeSimple(data).1| > |body|;
    }
  }

  /** A first line ends before the first line break, or with the text. */
  lemma {:induction false} FirstLineExact(s: seq<byte>)
    ensures |FirstLine(s)| <= |s| && FirstLine(s) == s[..|FirstLine(s)|]
    ensures 10 !in FirstLine(s)
    ensures |FirstLine(s)| < |s| ==> s[|FirstLine(s)|] == 10
  {
    if |s| > 0 && s[0] != 10 {
      FirstLineExact(s[1..]);
    }
  }

  /** The first separator stands at `i`. */
  ghost predicate FirstAt(data: seq<byte>, i: nat) {
    Occurs(data, BODY, i) && forall j: nat :: j < i ==> !Occurs(data, BODY, j)
  }

  /**
   Any text at all: without a separator, or with one at the first or second byte, the whole of it is
   the body; otherwise the body is what follows the first separator, and the subject the first line
   of at most 500 bytes from the ninth byte up to it.
   */
  lemma SimpleExact(data: seq<byte>, i: nat)
    ensures !Contains(data, BODY) ==> DecodeSimple(data) == ([], data)
    ensures FirstAt(data, i) && i <= 1 ==> DecodeSimple(data) == ([], data)
    ensures FirstAt(data, i) && i > 1 ==> DecodeSimple(data).1 == data[i + 6..]
    ensures FirstAt(data, i) && 1 < i < 8 ==> DecodeSimple(data).0 == []
    ensures FirstAt(data, i) && i >= 8 ==>
              DecodeSimple(data).0 == FirstLine(data[8..if i > 508 then 508 else i])
  {
    var k := FirstOccurrence(data, BODY, 0);
    if k.Some? && i < k.value {
      assert !Occurs(data, BODY, i);
    }
    if FirstAt(data, i) && i >= 8 {
      TakeSlice(data, 8, i, 500);
    }
  }

  // --------------------------------------------------------------- key parts

  datatype Keys = Keys(bitfield: uint32, signing: seq<byte>, encryption: seq<byte>)

  function KeyBytes(doesAck: bool, signing: seq<byte>, encryption: seq<byte>): seq<byte>
    requires |signing| == 65 && |encryption| == 65
  {
    BigEndian(if doesAck then 1 else 0, 4) + signing[1..] + encryption[1..]
  }

  /** Bitfield and the two keys, with the 0x04 the wire leaves out put back. */
  function ReadKeys(data: seq<byte>): (r: Option<(Keys, seq<byte>)>)
    ensures r.Some? ==> |r.value.1| == |data| - 132
  {
    var (b, rest) :- ReadBytes(data, 4 + 64 + 64);
    Some((KeysOf(b), rest))
  }

  function KeysOf(b: seq<byte>): Keys
    requires |b| == 132
  {
    Keys(ReadBe32(b), [0x04] + b[4..68], [0x04] + b[68..132])
  }

  lemma KeysRead(doesAck: bool, signing: seq<byte>, encryption: seq<byte>, rest: seq<byte>)
    requires IsPublicKey(signing) && IsPublicKey(encryption)
    ensures ReadKeys(KeyBytes(doesAck, signing, encryption) + rest) ==
            Some((Keys(if doesAck then 1 else 0, signing, encryption), rest))
  {
    hide BigEndian, ReadBe32, ReadBytes;
    var b := KeyBytes(doesAck, signing, encryption);
    BytesRead(b, rest);
    Be32RoundTrip(if doesAck then 1 else 0, signing[1..] + encryption[1..]);
    assert b == BigEndian(if doesAck then 1 else 0, 4) + (signing[1..] + encryption[1..]);
    assert b[4..68] == signing[1..] && b[68..132] == encryption[1..];
    assert [0x04] + signing[1..] == signing && [0x04] + encryption[1..] == encryption;
  }

  function DifficultyBytes(trials: uint64, extra: uint64): seq<byte> {
    Encoded(trials) + Encoded(extra)
  }

  function ReadDifficulty(data: seq<byte>): (r: Option<((uint64, uint64), seq<byte>)>)
    ensures r.Some? ==> |r.value.1| < |data|
  {
    var (trials, rest) :- ReadVarint(data);
    var (extra, rest') :- ReadVarint(rest);
    Some(((trials, extra), rest'))
  }

  lemma DifficultyRead(trials: uint64, extra: uint64, rest: seq<byte>)
    ensures ReadDifficulty(DifficultyBytes(trials, extra) + rest) == Some(((trials, extra), rest))
  {
    hide ReadVarint, Encoded;
    assert DifficultyBytes(trials, extra) + rest == Encoded(trials) + (Encoded(extra) + rest);
    VarintReads(trials, Encoded(extra) + rest);
    VarintReads(extra, rest);
  }

  // --------------------------------------------------------------------- msg

  datatype Sender = Sender(version: uint64, stream: uint64, privSigning: seq<byte>, pubSigning: seq<byte>,
                           pubEncryption: seq<byte>, trials: uint64, extra: uint64, doesAck: bool)

  datatype Recipient = Recipient(address: string, ripe: seq<byte>, privEncryption: seq<byte>, isChan: bool)

  datatype Decoded = Decoded(fromVersion: uint64, fromStream: uint64, fromAddress: string, toAddress: string,
                             subject: seq<byte>, body: seq<byte>, ack: seq<byte>)

  ghost predicate ValidSender(c: Crypto, from: Sender) {
    IsPublicKey(from.pubSigning) && IsPublicKey(from.pubEncryption) && from.pubSigning == c.pubOf(from.privSigning)
  }

  function SenderBytes(from: Sender): seq<byte>
    requires |from.pubSigning| == 65 && |from.pubEncryption| == 65
  {
    Encoded(from.version) + Encoded(from.stream) + KeyBytes(from.doesAck, from.pubSigning, from.pubEncryption)
    + (if from.version >= 3 then DifficultyBytes(from.trials, from.extra) else [])
  }

  function ContentBytes(toRipe: seq<byte>, message: seq<byte>, ack: seq<byte>): seq<byte>
    requires |message| < TWO64 && |ack| < TWO64
  {
    ContentOf(toRipe, 2, message, ack)
  }

  /** The fields behind the sender, in any encoding. */
  function ContentOf(toRipe: seq<byte>, encoding: uint64, message: seq<byte>, ack: seq<byte>): seq<byte>
    requires |message| < TWO64 && |ack| < TWO64
  {
    toRipe + Encoded(encoding) + Varbytes(message) + Varbytes(ack)
  }

  /** What is encrypted: the payload, and the signature over the header and the payload. */
  function MsgPlain(c: Crypto, from: Sender, toStream: uint64, toRipe: seq<byte>, message: seq<byte>, ack: seq<byte>,
                    expires: uint64): seq<byte>
    requires Sized(c) && |from.pubSigning| == 65 && |from.pubEncryption| == 65 && |message| < TWO64 && |ack| < TWO64
  {
    var payload := SenderBytes(from) + ContentBytes(toRipe, message, ack);
    payload + Varbytes(Sign(c, CommonHeader(expires, MSG, 1, toStream) + payload, from.privSigning))
  }

  /** The object without its nonce, as the builder leaves it to the proof of work. */
  function MsgPayload(c: Crypto, from: Sender, toStream: uint64, toRipe: seq<byte>, toPub: seq<byte>,
                      subject: seq<byte>, body: seq<byte>, ack: seq<byte>, expires: uint64, rnd: seq<byte>): seq<byte>
    requires Sized(c) && |from.pubSigning| == 65 && |from.pubEncryption| == 65
    requires |SimpleText(subject, body)| < TWO64 && |ack| < TWO64
  {
    CommonHeader(expires, MSG, 1, toStream)
    + c.encrypt(MsgPlain(c, from, toStream, toRipe, SimpleText(subject, body), ack, expires), toPub, rnd)
  }

  /** The texts have lengths, and the plaintext fits into memory. */
  ghost predicate Fits(c: Crypto, from: Sender, toStream: uint64, toRipe: seq<byte>, subject: seq<byte>,
                       body: seq<byte>, ack: seq<byte>, expires: uint64)
    requires Sized(c) && |from.pubSigning| == 65 && |from.pubEncryption| == 65
  {
    && |SimpleText(subject, body)| < TWO64 && |ack| < TWO64
    && |MsgPlain(c, from, toStream, toRipe, SimpleText(subject, body), ack, expires)| < TWO64
  }

  lemma Regroup4(s: seq<byte>, a: seq<byte>, b: seq<byte>, c: seq<byte>, d: seq<byte>)
    ensures s + a + b + c + d == s + (a + b + c + d)
  {
  }

  /** `bm_build_msg`: two growing buffers, signed together, the second encrypted onto the first. */
  method BuildMsg(c: Crypto, from: Sender, toStream: uint64, toRipe: seq<byte>, toPub: seq<byte>,
                  subject: seq<byte>, body: seq<byte>, ack: seq<byte>, expires: uint64, rnd: seq<byte>)
    returns (r: seq<byte>)
    requires Sized(c) && |from.pubSigning| == 65 && |from.pubEncryption| == 65
    requires |SimpleText(subject, body)| < TWO64 && |ack| < TWO64
    ensures r == MsgPayload(c, from, toStream, toRipe, toPub, subject, body, ack, expires, rnd)
  {
    hide Sized, Sign, CommonHeader, Encoded, KeyBytes, Varbytes, SimpleText, DifficultyBytes;
    var header := CommonHeader(expires, MSG, 1, toStream);
    var payload := Encoded(from.version) + Encoded(from.stream);
    payload := payload + KeyBytes(from.doesAck, from.pubSigning, from.pubEncryption);
    if from.version >= 3 {
      payload := payload + DifficultyBytes(from.trials, from.extra);
    } else {
      assert payload == payload + [];
    }
    assert payload == SenderBytes(from);
    ghost var sender := payload;
    payload := payload + toRipe;
    payload := payload + Encoded(2);
    payload := payload + Varbytes(SimpleText(subject, body));
    payload := payload + Varbytes(ack);
    Regroup4(sender, toRipe, Encoded(2), Varbytes(SimpleText(subject, body)), Varbytes(ack));
    var sig := Sign(c, header + payload, from.privSigning);
    payload := payload + Varbytes(sig);
    r := header + c.encrypt(payload, toPub, rnd);
  }

  datatype SenderPart = SenderPart(version: uint64, stream: uint64, keys: Keys)

  function ReadSender(data: seq<byte>): (r: Option<(SenderPart, seq<byte>)>)
    ensures r.Some? ==> |r.value.1| < |data|
  {
    var (version, r1) :- ReadVarint(data);
    var (stream, r2) :- ReadVarint(r1);
    var (keys, r3) :- ReadKeys(r2);
    if version >= 3 then
      var (_, r4) :- ReadDifficulty(r3);
      Some((SenderPart(version, stream, keys), r4))
    else Some((SenderPart(version, stream, keys), r3))
  }

  lemma SenderReads(from: Sender, rest: seq<byte>)
    requires IsPublicKey(from.pubSigning) && IsPublicKey(from.pubEncryption)
    ensures ReadSender(SenderBytes(from) + rest) ==
            Some((SenderPart(from.version, from.stream,
                             Keys(if from.doesAck then 1 else 0, from.pubSigning, from.pubEncryption)), rest))
  {
    hide Encoded, KeyBytes, DifficultyBytes, ReadVarint, ReadKeys, ReadDifficulty;
    var keys := KeyBytes(from.doesAck, from.pubSigning, from.pubEncryption);
    var diff := if from.version >= 3 then DifficultyBytes(from.trials, from.extra) else [];
    var tail := diff + rest;
    assert SenderBytes(from) + rest == Encoded(from.version) + (Encoded(from.stream) + (keys + tail));
    VarintReads(from.version, Encoded(from.stream) + (keys + tail));
    VarintReads(from.stream, keys + tail);
    KeysRead(from.doesAck, from.pubSigning, from.pubEncryption, tail);
    if from.version >= 3 {
      DifficultyRead(from.trials, from.extra, rest);
    } else {
      assert tail == rest;
    }
  }

  datatype Content = Content(toRipe: seq<byte>, encoding: uint64, message: Slice, ack: Slice)

  /** The fields behind the sender, from position `p`, and where the cursor stands after them. */
  function ContentAt(data: seq<byte>, p: nat): (r: Option<(Content, nat)>)
    requires p <= |data|
    ensures r.Some? ==> r.value.1 <= |data|
  {
    if p + 20 > |data| then None
    else
      var encoding := Decode(data[p + 20..]);
      if encoding.None? then None
      else
        var (message, p2) :- VarbytesAt(data, p + 20 + encoding.value.1);
        var (ack, p3) :- VarbytesAt(data, p2);
        Some((Content(data[p..p + 20], encoding.value.0, message, ack), p3))
  }

  lemma ContentReads(front: seq<byte>, toRipe: seq<byte>, encoding: uint64, message: seq<byte>, ack: seq<byte>,
                     rest: seq<byte>)
    requires |toRipe| == 20 && |message| < TWO64 && |ack| < TWO64
    requires |front + ContentOf(toRipe, encoding, message, ack) + rest| < TWO64
    ensures ContentAt(front + ContentOf(toRipe, encoding, message, ack) + rest, |front|) ==
            Some((Content(toRipe, encoding, Inside(message), Inside(ack)),
                  |front + ContentOf(toRipe, encoding, message, ack)|))
  {
    hide Encoded, Varbytes, VarbytesAt, Decode;
    var data := front + ContentOf(toRipe, encoding, message, ack) + rest;
    var p := |front|;
    assert data[p..p + 20] == toRipe;
    assert data[p + 20..] == Encoded(encoding) + (Varbytes(message) + Varbytes(ack) + rest);
    RoundTrip(encoding, Varbytes(message) + Varbytes(ack) + rest);
    var f1 := front + toRipe + Encoded(encoding);
    assert data == f1 + Varbytes(message) + (Varbytes(ack) + rest);
    VarbytesRead(f1, message, Varbytes(ack) + rest);
    var f2 := f1 + Varbytes(message);
    assert data == f2 + Varbytes(ack) + rest;
    VarbytesRead(f2, ack, rest);
  }

  /** What the parsed fields become once the signature is known to be good. */
  function Finish(c: Crypto, id: Recipient, sender: SenderPart, encoding: uint64, message: seq<byte>, ack: seq<byte>)
    : Decoded
  {
    var text := if encoding == 2 then DecodeSimple(message) else ([], message);
    Decoded(sender.version, sender.stream,
            Address.Text(c.sum, sender.version, sender.stream, c.ripe(sender.keys.signing, sender.keys.encryption)),
            id.address, text.0, text.1, if id.isChan then [] else ack)
  }

  /**
   The checks in their order: ripe, signature, then the copies of message and ack. A string that
   reaches past the buffer is read by the signature check or by the copy; a channel copies no ack.
   */
  function Judge(c: Crypto, id: Recipient, signed: seq<byte>, sender: SenderPart, content: Content, sig: Slice)
    : Parsed<Decoded>
  {
    if content.toRipe != id.ripe then Refused
    else if sig.Outside? then OutOfBounds
    else if !c.verify(signed, sig.bytes, sender.keys.signing) then Refused
    else if content.message.Outside? || (content.ack.Outside? && !id.isChan) then OutOfBounds
    else Read(Finish(c, id, sender, content.encoding, content.message.bytes,
                     if content.ack.Outside? then [] else content.ack.bytes))
  }

  /** The message in a decrypted body, when it is addressed to `id` and its signature verifies. */
  function BodyOf(c: Crypto, id: Recipient, header: seq<byte>, plain: seq<byte>): Parsed<Decoded> {
    var sender := ReadSender(plain);
    if sender.None? then Refused
    else
      var content := ContentAt(plain, |plain| - |sender.value.1|);
      if content.None? then Refused
      else
        var sig := SignatureAt(plain, content.value.1);
        if sig.None? then Refused
        else Judge(c, id, header + plain[..content.value.1], sender.value.0, content.value.0, sig.value)
  }

  /** What `id` makes of an object: header, decryption, body. */
  function MsgFor(c: Crypto, id: Recipient, data: seq<byte>): Parsed<Decoded> {
    var h := HeaderOf(data);
    if h.None? || h.value.0.kind != MSG || h.value.0.version != 1 then Refused
    else
      var plain := c.decrypt(data[h.value.1..], id.privEncryption);
      if plain.None? then Refused else BodyOf(c, id, data[8..h.value.1], plain.value)
  }

  function SenderPartOf(from: Sender): SenderPart {
    SenderPart(from.version, from.stream, Keys(if from.doesAck then 1 else 0, from.pubSigning, from.pubEncryption))
  }

  /** A body splits into the payload that was signed and the signature, whoever reads it. */
  lemma BodySplits(c: Crypto, id: Recipient, from: Sender, header: seq<byte>, toRipe: seq<byte>, encoding: uint64,
                   message: seq<byte>, ack: seq<byte>, sig: seq<byte>)
    requires IsPublicKey(from.pubSigning) && IsPublicKey(from.pubEncryption)
    requires |toRipe| == 20 && |message| < TWO64 && |ack| < TWO64 && |sig| < INT_LIMIT
    requires |SenderBytes(from) + ContentOf(toRipe, encoding, message, ack) + Varbytes(sig)| < TWO64
    ensures var payload := SenderBytes(from) + ContentOf(toRipe, encoding, message, ack);
            BodyOf(c, id, header, payload + Varbytes(sig)) ==
            if toRipe == id.ripe && c.verify(header + payload, sig, from.pubSigning)
            then Read(Finish(c, id, SenderPartOf(from), encoding, message, ack)) else Refused
  {
    hide SenderBytes, ContentOf, Varbytes, ReadSender, ContentAt, SignatureAt, Finish, BodyOf;
    var head, content, tail := SenderBytes(from), ContentOf(toRipe, encoding, message, ack), Varbytes(sig);
    var plain := head + content + tail;
    Assoc(head, content, tail);
    SenderReads(from, content + tail);
    ContentReads(head, toRipe, encoding, message, ack, tail);
    LastSignature(head + content, sig);
    FrontOf(head + content, tail);
    BodySteps(c, id, header, plain, |head + content|, SenderPartOf(from),
              Content(toRipe, encoding, Inside(message), Inside(ack)), content + tail, sig);
  }

  /**
   A body in any other encoding than the simple one: it is read exactly under the same conditions,
   and its whole message is the text, under no subject.
   */
  lemma OtherEncoding(c: Crypto, id: Recipient, from: Sender, header: seq<byte>, toRipe: seq<byte>, encoding: uint64,
                      message: seq<byte>, ack: seq<byte>, sig: seq<byte>)
    requires IsPublicKey(from.pubSigning) && IsPublicKey(from.pubEncryption) && encoding != 2
    requires |toRipe| == 20 && |message| < TWO64 && |ack| < TWO64 && |sig| < INT_LIMIT
    requires |SenderBytes(from) + ContentOf(toRipe, encoding, message, ack) + Varbytes(sig)| < TWO64
    ensures var payload := SenderBytes(from) + ContentOf(toRipe, encoding, message, ack);
            BodyOf(c, id, header, payload + Varbytes(sig)) ==
            if toRipe == id.ripe && c.verify(header + payload, sig, from.pubSigning)
            then Read(Decoded(from.version, from.stream,
                              Address.Text(c.sum, from.version, from.stream,
                                           c.ripe(from.pubSigning, from.pubEncryption)),
                              id.address, [], message, if id.isChan then [] else ack))
            else Refused
  {
    hide SenderBytes, ContentOf, Varbytes, BodyOf, Address.Text;
    BodySplits(c, id, from, header, toRipe, encoding, message, ack, sig);
  }

  lemma FrontOf(a: seq<byte>, b: seq<byte>)
    ensures (a + b)[..|a|] == a
  {
  }

  lemma LastSignature(front: seq<byte>, sig: seq<byte>)
    requires |sig| < INT_LIMIT && |front + Varbytes(sig)| < TWO64
    ensures SignatureAt(front + Varbytes(sig), |front|) == Some(Inside(sig))
  {
    hide Varbytes, SignatureAt;
    assert front + Varbytes(sig) + [] == front + Varbytes(sig);
    SignatureRead(front, sig, []);
  }

  /** A body whose three parts are known. */
  lemma BodySteps(c: Crypto, id: Recipient, header: seq<byte>, plain: seq<byte>, presig: nat, sender: SenderPart,
                  content: Content, rest: seq<byte>, sig: seq<byte>)
    requires ReadSender(plain) == Some((sender, rest))
    requires ContentAt(plain, |plain| - |rest|) == Some((content, presig))
    requires SignatureAt(plain, presig) == Some(Inside(sig))
    ensures BodyOf(c, id, header, plain) == Judge(c, id, header + plain[..presig], sender, content, Inside(sig))
  {
    hide ReadSender, ContentAt, SignatureAt, Judge;
  }

  /** The bytes the receiver verifies are the bytes the builder signed; only the ripe can make a reader refuse. */
  lemma BodyRoundTrip(c: Crypto, id: Recipient, from: Sender, toStream: uint64, toRipe: seq<byte>, message: seq<byte>,
                      ack: seq<byte>, expires: uint64)
    requires Sound(c) && Sized(c) && ValidSender(c, from) && |toRipe| == 20 && |message| < TWO64 && |ack| < TWO64
    requires |MsgPlain(c, from, toStream, toRipe, message, ack, expires)| < TWO64
    ensures BodyOf(c, id, CommonHeader(expires, MSG, 1, toStream),
                   MsgPlain(c, from, toStream, toRipe, message, ack, expires)) ==
            if toRipe == id.ripe then Read(Finish(c, id, SenderPartOf(from), 2, message, ack)) else Refused
  {
    hide Sound, Sized, SenderBytes, ContentOf, Varbytes, BodyOf, Finish, CommonHeader;
    var header := CommonHeader(expires, MSG, 1, toStream);
    var payload := SenderBytes(from) + ContentBytes(toRipe, message, ack);
    var sig := Sign(c, header + payload, from.privSigning);
    BodySplits(c, id, from, header, toRipe, 2, message, ack, sig);
    SignatureVerifies(c, header + payload, from.privSigning);
  }

  /** Header and encryption are transparent to every holder of the key. */
  lemma MsgOpens(c: Crypto, id: Recipient, toKey: seq<byte>, toStream: uint64, plain: seq<byte>, expires: uint64,
                 rnd: seq<byte>, nonce: uint64)
    requires Sound(c) && c.pubOf(id.privEncryption) == c.pubOf(toKey)
    ensures var header := CommonHeader(expires, MSG, 1, toStream);
            MsgFor(c, id, BigEndian(nonce, 8) + (header + c.encrypt(plain, c.pubOf(toKey), rnd))) ==
            BodyOf(c, id, header, plain)
  {
    hide Sound, CommonHeader, HeaderOf, BodyOf, BigEndian;
    CiphertextOpens(c, plain, toKey, rnd, id.privEncryption);
    HeaderRoundTrip(nonce, expires, MSG, 1, toStream, c.encrypt(plain, c.pubOf(toKey), rnd));
  }

  /** What the recipient of a message should see. */
  ghost predicate Faithful(c: Crypto, id: Recipient, from: Sender, subject: seq<byte>, body: seq<byte>, ack: seq<byte>,
                           m: Decoded) {
    && m.fromVersion == from.version && m.fromStream == from.stream
    && m.fromAddress == Address.Text(c.sum, from.version, from.stream, c.ripe(from.pubSigning, from.pubEncryption))
    && m.toAddress == id.address
    && m.ack == (if id.isChan then [] else ack)
    && (m.body == body <==> !Contains(subject, BODY))
    && (!Contains(subject, BODY) ==> m.subject == FirstLine(Take(subject, 500)))
  }

  lemma FinishFaithful(c: Crypto, id: Recipient, from: Sender, subject: seq<byte>, body: seq<byte>, ack: seq<byte>)
    ensures Faithful(c, id, from, subject, body, ack,
                     Finish(c, id, SenderPartOf(from), 2, SimpleText(subject, body), ack))
  {
    hide SimpleText, DecodeSimple, Contains, FirstLine, Take, Address.Text;
    SimpleRoundTrip(subject, body);
  }

  /**
   A built message, after the proof of work, read by an identity that holds the encryption
   key: it is read if and only if it was built for that identity's ripe, and then every
   field comes back, the text exactly when the subject does not contain the separator.
   */
  lemma MsgRoundTrip(c: Crypto, id: Recipient, from: Sender, toStream: uint64, toRipe: seq<byte>, toKey: seq<byte>,
                     subject: seq<byte>, body: seq<byte>, ack: seq<byte>, expires: uint64, rnd: seq<byte>,
                     nonce: uint64)
    requires Sound(c) && Sized(c) && ValidSender(c, from) && |toRipe| == 20
    requires Fits(c, from, toStream, toRipe, subject, body, ack, expires)
    requires c.pubOf(id.privEncryption) == c.pubOf(toKey)
    ensures var p := MsgPayload(c, from, toStream, toRipe, c.pubOf(toKey), subject, body, ack, expires, rnd);
            var m := MsgFor(c, id, BigEndian(nonce, 8) + p);
            if id.ripe == toRipe then m.Read? && Faithful(c, id, from, subject, body, ack, m.value) else m.Refused?
  {
    hide Sound, Sized, CommonHeader, SenderBytes, ContentBytes, Varbytes, BodyOf, SimpleText, BigEndian, MsgFor,
         Finish, Faithful, SenderPartOf, MsgPlain;
    var message := SimpleText(subject, body);
    BodyRoundTrip(c, id, from, toStream, toRipe, message, ack, expires);
    MsgOpens(c, id, toKey, toStream, MsgPlain(c, from, toStream, toRipe, message, ack, expires), expires, rnd, nonce);
    FinishFaithful(c, id, from, subject, body, ack);
  }

  // --------------------------------------------------------- trial decryption

  /** `trial_decrypt_body`: a cursor through the plaintext, one field after the other. */
  method TrialDecryptBody(c: Crypto, id: Recipient, header: seq<byte>, plain: seq<byte>) returns (r: Parsed<Decoded>)
    ensures r == BodyOf(c, id, header, plain)
  {
    hide ReadSender, ContentAt, SignatureAt, Finish;
    var ok, sender, content, p, presig;
    ok, sender, p := TakeSender(plain);
    if !ok {
      return Refused;
    }
    ok, content, p := TakeContent(plain, p);
    if !ok || content.toRipe != id.ripe {
      return Refused;
    }
    presig := p;
    var sig := TakeSignature(plain, p);
    if sig.None? {
      return Refused;
    }
    if sig.value.Outside? {
      return OutOfBounds;
    }
    var signed := header + plain[..presig];
    if !c.verify(signed, sig.value.bytes, sender.keys.signing) {
      return Refused;
    }
    if content.message.Outside? {
      return OutOfBounds;
    }
    var ack := [];
    if !id.isChan {
      if content.ack.Outside? {
        return OutOfBounds;
      }
      ack := content.ack.bytes;
    }
    FinishAck(c, id, sender, content.encoding, content.message.bytes, ack,
              if content.ack.Outside? then [] else content.ack.bytes);
    r := Read(Finish(c, id, sender, content.encoding, content.message.bytes, ack));
  }

  lemma FinishAck(c: Crypto, id: Recipient, sender: SenderPart, encoding: uint64, message: seq<byte>, ack: seq<byte>,
                  ack': seq<byte>)
    requires id.isChan || ack == ack'
    ensures Finish(c, id, sender, encoding, message, ack) == Finish(c, id, sender, encoding, message, ack')
  {
    hide Address.Text, DecodeSimple;
  }

  method TakeSender(plain: seq<byte>) returns (ok: bool, sender: SenderPart, next: nat)
    ensures ok <==> ReadSender(plain).Some?
    ensures ok ==> next <= |plain| && ReadSender(plain) == Some((sender, plain[next..]))
  {
    hide ReadVarint, ReadKeys, ReadDifficulty;
    assert plain[0..] == plain;
    var version, stream, keys, p, trials, extra;
    sender := SenderPart(0, 0, Keys(0, [], []));
    next := 0;
    ok, version, p := TakeVarint(plain, 0);
    if !ok { return; }
    ok, stream, p := TakeVarint(plain, p);
    if !ok { return; }
    ok, keys, p := TakeKeys(plain, p);
    if !ok { return; }
    if version >= 3 {
      ok, trials, extra, p := TakeDifficulty(plain, p);
      if !ok { return; }
    }
    sender := SenderPart(version, stream, keys);
    next := p;
  }

  method TakeKeys(data: seq<byte>, p: nat) returns (ok: bool, keys: Keys, next: nat)
    requires p <= |data|
    ensures ok <==> ReadKeys(data[p..]).Some?
    ensures ok ==> next <= |data| && ReadKeys(data[p..]) == Some((keys, data[next..]))
  {
    hide ReadBytes, KeysOf;
    var b;
    keys := Keys(0, [], []);
    ok, b, next := TakeBytes(data, p, 4 + 64 + 64);
    if ok {
      keys := KeysOf(b);
    }
  }

  method TakeDifficulty(data: seq<byte>, p: nat) returns (ok: bool, trials: uint64, extra: uint64, next: nat)
    requires p <= |data|
    ensures ok <==> ReadDifficulty(data[p..]).Some?
    ensures ok ==> next <= |data| && ReadDifficulty(data[p..]) == Some(((trials, extra), data[next..]))
  {
    hide ReadVarint;
    extra := 0;
    ok, trials, next := TakeVarint(data, p);
    if ok {
      ok, extra, next := TakeVarint(data, next);
    }
  }

  method TakeContent(plain: seq<byte>, start: nat) returns (ok: bool, content: Content, next: nat)
    requires start <= |plain|
    ensures ok <==> ContentAt(plain, start).Some?
    ensures next <= |plain| && (ok ==> ContentAt(plain, start) == Some((content, next)))
  {
    hide VarbytesAt;
    var toRipe, message, ack, p;
    content := Content([], 0, Outside, Outside);
    next := 0;
    ok := false;
    if start + 20 > |plain| {
      return;
    }
    toRipe := plain[start..start + 20];
    var encoding := Decode(plain[start + 20..]);
    if encoding.None? {
      return;
    }
    ok, message, p := TakeVarbytes(plain, start + 20 + encoding.value.1);
    if !ok { return; }
    ok, ack, p := TakeVarbytes(plain, p);
    if !ok { return; }
    content := Content(toRipe, encoding.value.0, message, ack);
    next := p;
  }

  predicate CanOpen(c: Crypto, id: Recipient, ciphertext: seq<byte>) {
    c.decrypt(ciphertext, id.privEncryption).Some?
  }

  /** The first identity of the ring whose key opens the ciphertext. */
  function FirstOpener(c: Crypto, ring: seq<Recipient>, ciphertext: seq<byte>, start: nat): (r: Option<nat>)
    requires start <= |ring|
    ensures r.Some? ==> start <= r.value < |ring| && CanOpen(c, ring[r.value], ciphertext)
    ensures forall j :: start <= j < (if r.Some? then r.value else |ring|) ==> !CanOpen(c, ring[j], ciphertext)
    decreases |ring| - start
  {
    if start == |ring| then None
    else if CanOpen(c, ring[start], ciphertext) then Some(start)
    else FirstOpener(c, ring, ciphertext, start + 1)
  }

  /** What the whole ring makes of an object: the first identity that opens it decides. */
  function TrialMsg(c: Crypto, ring: seq<Recipient>, data: seq<byte>): Parsed<Decoded> {
    var h := HeaderOf(data);
    if h.None? then Refused
    else
      var i := FirstOpener(c, ring, data[h.value.1..], 0);
      if i.None? then Refused else MsgFor(c, ring[i.value], data)
  }

  /** `bm_trial_decrypt_msg` */
  method TrialDecryptMsg(c: Crypto, ring: seq<Recipient>, data: seq<byte>) returns (r: Parsed<Decoded>)
    ensures r == TrialMsg(c, ring, data)
  {
    hide BodyOf, HeaderOf;
    var h := ParseHeader(data);
    if h.None? || h.value.0.kind != MSG || h.value.0.version != 1 {
      return Refused;
    }
    var n := h.value.1;
    var ciphertext := data[n..];
    var cur := 0;
    while cur < |ring|
      invariant 0 <= cur <= |ring|
      invariant FirstOpener(c, ring, ciphertext, 0) == FirstOpener(c, ring, ciphertext, cur)
    {
      var plain := c.decrypt(ciphertext, ring[cur].privEncryption);
      if plain.Some? {
        r := TrialDecryptBody(c, ring[cur], data[8..n], plain.value);
        return;
      }
      cur := cur + 1;
    }
    r := Refused;
  }

  /** The first identity of the ring that holds the private half of `pub`. */
  function FirstHolder(c: Crypto, ring: seq<Recipient>, pub: seq<byte>, start: nat): (r: Option<nat>)
    requires start <= |ring|
    ensures r.Some? ==> start <= r.value < |ring| && c.pubOf(ring[r.value].privEncryption) == pub
    ensures forall j :: start <= j < (if r.Some? then r.value else |ring|) ==> c.pubOf(ring[j].privEncryption) != pub
    decreases |ring| - start
  {
    if start == |ring| then None
    else if c.pubOf(ring[start].privEncryption) == pub then Some(start)
    else FirstHolder(c, ring, pub, start + 1)
  }

  /** The identity that opens a ciphertext first is the first that holds its key. */
  lemma OpenerHolds(c: Crypto, ring: seq<Recipient>, plain: seq<byte>, toKey: seq<byte>, rnd: seq<byte>)
    requires Sound(c)
    ensures FirstOpener(c, ring, c.encrypt(plain, c.pubOf(toKey), rnd), 0) == FirstHolder(c, ring, c.pubOf(toKey), 0)
  {
    var ciphertext := c.encrypt(plain, c.pubOf(toKey), rnd);
    forall j | 0 <= j < |ring|
      ensures CanOpen(c, ring[j], ciphertext) == (c.pubOf(ring[j].privEncryption) == c.pubOf(toKey))
    {
      CiphertextOpens(c, plain, toKey, rnd, ring[j].privEncryption);
    }
    hide Sound, FirstOpener, FirstHolder;
    var a, b := FirstOpener(c, ring, ciphertext, 0), FirstHolder(c, ring, c.pubOf(toKey), 0);
    if a.Some? {
      assert CanOpen(c, ring[a.value], ciphertext);
    }
    if b.Some? {
      assert CanOpen(c, ring[b.value], ciphertext);
    }
  }

  /**
   A built message and a ring that holds its recipient: it is delivered if and only if the
   first unlocked identity that holds the recipient's encryption key has the recipient's
   ripe, and then under that identity with every field intact; otherwise it is refused.
   */
  lemma TrialRoundTrip(c: Crypto, ring: seq<Recipient>, i: nat, from: Sender, toStream: uint64, subject: seq<byte>,
                       body: seq<byte>, ack: seq<byte>, expires: uint64, rnd: seq<byte>, nonce: uint64)
    requires Sound(c) && Sized(c) && ValidSender(c, from) && i < |ring| && |ring[i].ripe| == 20
    requires Fits(c, from, toStream, ring[i].ripe, subject, body, ack, expires)
    ensures var pub := c.pubOf(ring[i].privEncryption);
            var p := MsgPayload(c, from, toStream, ring[i].ripe, pub, subject, body, ack, expires, rnd);
            var m := TrialMsg(c, ring, BigEndian(nonce, 8) + p);
            var k := FirstHolder(c, ring, pub, 0);
            && k.Some? && k.value <= i
            && if ring[k.value].ripe == ring[i].ripe
               then m.Read? && Faithful(c, ring[k.value], from, subject, body, ack, m.value)
               else m.Refused?
  {
    hide Sound, Sized, SenderBytes, ContentBytes, Varbytes, BodyOf, SimpleText, BigEndian, MsgFor, Faithful, HeaderOf,
         CommonHeader, MsgPlain, FirstOpener, FirstHolder;
    var id := ring[i];
    var plain := MsgPlain(c, from, toStream, id.ripe, SimpleText(subject, body), ack, expires);
    var pub := c.pubOf(id.privEncryption);
    var ciphertext := c.encrypt(plain, pub, rnd);
    HeaderRoundTrip(nonce, expires, MSG, 1, toStream, ciphertext);
    OpenerHolds(c, ring, plain, id.privEncryption, rnd);
    var k := FirstHolder(c, ring, pub, 0).value;
    MsgRoundTrip(c, ring[k], from, toStream, id.ripe, id.privEncryption, subject, body, ack, expires, rnd, nonce);
  }

  /**
   Two unlocked identities with one encryption key and different signing keys: a message for
   the second of them is lost, although the second could read it.
   */
  lemma SharedKeyLoses(c: Crypto, a: Recipient, b: Recipient, from: Sender, toStream: uint64, subject: seq<byte>,
                       body: seq<byte>, ack: seq<byte>, expires: uint64, rnd: seq<byte>, nonce: uint64)
    requires Sound(c) && Sized(c) && ValidSender(c, from) && |b.ripe| == 20
    requires Fits(c, from, toStream, b.ripe, subject, body, ack, expires)
    requires a.privEncryption == b.privEncryption && a.ripe != b.ripe
    ensures var p := MsgPayload(c, from, toStream, b.ripe, c.pubOf(b.privEncryption), subject, body, ack, expires, rnd);
            && TrialMsg(c, [a, b], BigEndian(nonce, 8) + p) == Refused
            && MsgFor(c, b, BigEndian(nonce, 8) + p).Read?
  {
    hide Sound, Sized, SenderBytes, ContentBytes, Varbytes, BodyOf, SimpleText, BigEndian, MsgFor, Faithful, HeaderOf,
         CommonHeader, MsgPlain, TrialMsg, Fits;
    TrialRoundTrip(c, [a, b], 1, from, toStream, subject, body, ack, expires, rnd, nonce);
    MsgRoundTrip(c, b, from, toStream, b.ripe, b.privEncryption, subject, body, ack, expires, rnd, nonce);
  }

  // ------------------------------------------------------------------ pubkey

  datatype Pubkey = Pubkey(keys: Keys, trials: uint64, extra: uint64)

  function PubkeyBytes(id: Sender): seq<byte>
    requires |id.pubSigning| == 65 && |id.pubEncryption| == 65
  {
    KeyBytes(id.doesAck, id.pubSigning, id.pubEncryption) + DifficultyBytes(id.trials, id.extra)
  }

  /** Keys, difficulty and a signature over them and over the clear part in front. */
  function SignedPubkey(c: Crypto, clear: seq<byte>, data: seq<byte>): Parsed<Pubkey> {
    var keys := ReadKeys(data);
    if keys.None? then Refused
    else
      var diff := ReadDifficulty(keys.value.1);
      if diff.None? then Refused
      else
        var presig := |data| - |diff.value.1|;
        var sig := SignatureAt(data, presig);
        if sig.None? then Refused
        else if sig.value.Outside? then OutOfBounds
        else if c.verify(clear + data[..presig], sig.value.bytes, keys.value.0.signing)
        then Read(Pubkey(keys.value.0, diff.value.0.0, diff.value.0.1)) else Refused
  }

  function PubkeyOf(id: Sender): Pubkey {
    Pubkey(Keys(if id.doesAck then 1 else 0, id.pubSigning, id.pubEncryption), id.trials, id.extra)
  }

  lemma SignedPubkeySplits(c: Crypto, id: Sender, clear: seq<byte>, sig: seq<byte>)
    requires IsPublicKey(id.pubSigning) && IsPublicKey(id.pubEncryption) && |sig| < INT_LIMIT
    requires |PubkeyBytes(id) + Varbytes(sig)| < TWO64
    ensures SignedPubkey(c, clear, PubkeyBytes(id) + Varbytes(sig)) ==
            if c.verify(clear + PubkeyBytes(id), sig, id.pubSigning) then Read(PubkeyOf(id)) else Refused
  {
    hide KeyBytes, DifficultyBytes, Varbytes, ReadKeys, ReadDifficulty, SignatureAt;
    var keys, diff, tail := KeyBytes(id.doesAck, id.pubSigning, id.pubEncryption),
                            DifficultyBytes(id.trials, id.extra), Varbytes(sig);
    Assoc(keys, diff, tail);
    KeysRead(id.doesAck, id.pubSigning, id.pubEncryption, diff + tail);
    DifficultyRead(id.trials, id.extra, tail);
    LastSignature(keys + diff, sig);
    FrontOf(keys + diff, tail);
  }

  /** A public key signed by its own owner is accepted with every field intact. */
  lemma SignedPubkeyRoundTrip(c: Crypto, id: Sender, clear: seq<byte>)
    requires Sound(c) && Sized(c) && ValidSender(c, id) && |PubkeyPlain(c, id, clear)| < TWO64
    ensures SignedPubkey(c, clear, PubkeyPlain(c, id, clear)) == Read(PubkeyOf(id))
  {
    hide Sound, Sized, PubkeyBytes, PubkeyOf, SignedPubkey, Varbytes;
    SignedPubkeySplits(c, id, clear, Sign(c, clear + PubkeyBytes(id), id.privSigning));
    SignatureVerifies(c, clear + PubkeyBytes(id), id.privSigning);
  }

  /** Keys, difficulty and the owner's signature over the clear part and over them. */
  function PubkeyPlain(c: Crypto, id: Sender, clear: seq<byte>): seq<byte>
    requires Sized(c) && |id.pubSigning| == 65 && |id.pubEncryption| == 65
  {
    PubkeyBytes(id) + Varbytes(Sign(c, clear + PubkeyBytes(id), id.privSigning))
  }

  /** `bm_parse_pubkey_v3` and the decrypted part of `bm_parse_pubkey_v4`, cursor and all. */
  method ParseSignedPubkey(c: Crypto, clear: seq<byte>, data: seq<byte>) returns (r: Parsed<Pubkey>)
    ensures r == SignedPubkey(c, clear, data)
  {
    hide ReadKeys, ReadDifficulty, SignatureAt;
    assert data[0..] == data;
    var ok, keys, trials, extra, p;
    ok, keys, p := TakeKeys(data, 0);
    if !ok {
      return Refused;
    }
    ok, trials, extra, p := TakeDifficulty(data, p);
    if !ok {
      return Refused;
    }
    var presig := p;
    var sig := TakeSignature(data, p);
    if sig.None? {
      return Refused;
    }
    if sig.value.Outside? {
      return OutOfBounds;
    }
    if !c.verify(clear + data[..presig], sig.value.bytes, keys.signing) {
      return Refused;
    }
    r := Read(Pubkey(keys, trials, extra));
  }

  /** What an address is hashed from to give its secret key and its tag. */
  function SecretInput(version: uint64, stream: uint64, ripe: seq<byte>): seq<byte> {
    Encoded(version) + Encoded(stream) + ripe
  }

  function PubkeyV3Payload(c: Crypto, id: Sender, expires: uint64): seq<byte>
    requires Sized(c) && |id.pubSigning| == 65 && |id.pubEncryption| == 65
  {
    var clear := CommonHeader(expires, PUBKEY, 3, id.stream);
    clear + PubkeyPlain(c, id, clear)
  }

  /** `bm_build_pubkey_v4`: header and tag in the clear, keys and signature encrypted to the address secret. */
  function PubkeyV4Payload(c: Crypto, id: Sender, ripe: seq<byte>, expires: uint64, rnd: seq<byte>): seq<byte>
    requires Sized(c) && |id.pubSigning| == 65 && |id.pubEncryption| == 65
  {
    var input := SecretInput(4, id.stream, ripe);
    var clear := CommonHeader(expires, PUBKEY, 4, id.stream) + Tag(c, input);
    clear + c.encrypt(PubkeyPlain(c, id, clear), c.pubOf(c.secretOf(input)), rnd)
  }

  function PubkeyV3(c: Crypto, data: seq<byte>): Parsed<Pubkey> {
    var h := HeaderOf(data);
    if h.None? || h.value.0.kind != PUBKEY || h.value.0.version != 3 then Refused
    else SignedPubkey(c, data[8..h.value.1], data[h.value.1..])
  }

  /** The clear part and the decrypted part of a version-4 public key, if its tag is the expected one. */
  function OpenV4(c: Crypto, data: seq<byte>, input: seq<byte>): Option<(seq<byte>, seq<byte>)> {
    var (h, n) :- HeaderOf(data);
    if h.kind != PUBKEY || h.version != 4 || n + 32 > |data| then None else
    if data[n..n + 32] != c.tagOf(input) then None else
    var plain :- c.decrypt(data[n + 32..], c.secretOf(input));
    Some((data[8..n] + data[n..n + 32], plain))
  }

  /** `bm_parse_pubkey_v4` against the candidate address the caller expects. */
  function PubkeyV4(c: Crypto, data: seq<byte>, ripe: seq<byte>, version: uint64, stream: uint64): Parsed<Pubkey> {
    var open := OpenV4(c, data, SecretInput(version, stream, ripe));
    if open.None? then Refused
    else
      var k := SignedPubkey(c, open.value.0, open.value.1);
      if k.Read? && c.ripe(k.value.keys.signing, k.value.keys.encryption) != ripe then Refused else k
  }

  /** A built version-3 public key parses back with every field. */
  lemma PubkeyV3RoundTrip(c: Crypto, id: Sender, expires: uint64, nonce: uint64)
    requires Sound(c) && Sized(c) && ValidSender(c, id) && |PubkeyV3Payload(c, id, expires)| < TWO64
    ensures PubkeyV3(c, BigEndian(nonce, 8) + PubkeyV3Payload(c, id, expires)) == Read(PubkeyOf(id))
  {
    hide Sound, Sized, PubkeyPlain, PubkeyOf, SignedPubkey, CommonHeader, HeaderOf, BigEndian;
    var clear := CommonHeader(expires, PUBKEY, 3, id.stream);
    HeaderRoundTrip(nonce, expires, PUBKEY, 3, id.stream, PubkeyPlain(c, id, clear));
    SignedPubkeyRoundTrip(c, id, clear);
  }

  /** The tag follows the header, the ciphertext follows the tag. */
  lemma TagSlices(data: seq<byte>, n: nat, tag: seq<byte>, rest: seq<byte>)
    requires n <= |data| && |tag| == 32 && data[n..] == tag + rest
    ensures n + 32 <= |data| && data[n..n + 32] == tag && data[n + 32..] == rest
  {
    assert data[n..n + 32] == data[n..][..32];
    assert data[n + 32..] == data[n..][32..];
  }

  lemma V4Step(c: Crypto, data: seq<byte>, input: seq<byte>, h: Header, n: nat, tag: seq<byte>, ciphertext: seq<byte>,
               plain: seq<byte>)
    requires HeaderOf(data) == Some((h, n)) && h.kind == PUBKEY && h.version == 4
    requires |tag| == 32 && n <= |data| && data[n..] == tag + ciphertext
    requires c.tagOf(input) == tag && c.decrypt(ciphertext, c.secretOf(input)) == Some(plain)
    ensures 8 <= n && OpenV4(c, data, input) == Some((data[8..n] + tag, plain))
  {
    hide HeaderOf;
    TagSlices(data, n, tag, ciphertext);
  }

  lemma V4Opens(c: Crypto, stream: uint64, input: seq<byte>, plain: seq<byte>, expires: uint64, rnd: seq<byte>,
                nonce: uint64)
    requires Sound(c) && Sized(c)
    ensures var header := CommonHeader(expires, PUBKEY, 4, stream);
            var ciphertext := c.encrypt(plain, c.pubOf(c.secretOf(input)), rnd);
            OpenV4(c, BigEndian(nonce, 8) + (header + Tag(c, input) + ciphertext), input) ==
            Some((header + Tag(c, input), plain))
  {
    hide Sound, Sized, CommonHeader, HeaderOf, BigEndian, OpenV4;
    var header, tag := CommonHeader(expires, PUBKEY, 4, stream), Tag(c, input);
    var ciphertext := c.encrypt(plain, c.pubOf(c.secretOf(input)), rnd);
    Assoc(header, tag, ciphertext);
    HeaderRoundTrip(nonce, expires, PUBKEY, 4, stream, tag + ciphertext);
    CiphertextOpens(c, plain, c.secretOf(input), rnd, c.secretOf(input));
    V4Step(c, BigEndian(nonce, 8) + (header + (tag + ciphertext)), input, Header(nonce, expires, PUBKEY, 4, stream),
           8 + |header|, tag, ciphertext, plain);
  }

  /**
   A built version-4 public key, looked up by the address it was built for, is
   returned with every field exactly when its keys hash to that address.
   */
  lemma PubkeyV4RoundTrip(c: Crypto, id: Sender, ripe: seq<byte>, expires: uint64, rnd: seq<byte>, nonce: uint64)
    requires Sound(c) && Sized(c) && ValidSender(c, id)
    requires var clear := CommonHeader(expires, PUBKEY, 4, id.stream) + Tag(c, SecretInput(4, id.stream, ripe));
             |PubkeyPlain(c, id, clear)| < TWO64
    ensures PubkeyV4(c, BigEndian(nonce, 8) + PubkeyV4Payload(c, id, ripe, expires, rnd), ripe, 4, id.stream) ==
            if c.ripe(id.pubSigning, id.pubEncryption) == ripe then Read(PubkeyOf(id)) else Refused
  {
    hide Sound, Sized, PubkeyPlain, SignedPubkey, CommonHeader, OpenV4, BigEndian, SecretInput;
    var input := SecretInput(4, id.stream, ripe);
    var clear := CommonHeader(expires, PUBKEY, 4, id.stream) + Tag(c, input);
    V4Opens(c, id.stream, input, PubkeyPlain(c, id, clear), expires, rnd, nonce);
    SignedPubkeyRoundTrip(c, id, clear);
  }
}
