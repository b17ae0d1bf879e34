/**
 What the readers of src/core/trial_decrypt.c and src/core/pubkey_cache.c guarantee
 about objects anyone may have built: how far what they return was signed, and exactly
 when a declared length takes them past the end of their buffer.
 */
module Authenticity {
  import opened Numerals
  import opened Varint
  import opened Objects
  import opened Messages
  import Address

  // -------------------------------------------------------------- the fields of a body

  /** Where the length of the message stands in a body whose recipient part starts at `start`. */
  function MessageAt(data: seq<byte>, start: nat): (p: nat)
    requires start <= |data| && ContentAt(data, start).Some?
    ensures p <= |data| && VarbytesAt(data, p).Some?
  {
    start + 20 + Decode(data[start + 20..]).value.1
  }

  /** Where the length of the ack stands. */
  function AckAt(data: seq<byte>, start: nat): (p: nat)
    requires start <= |data| && ContentAt(data, start).Some?
    ensures p <= |data| && VarbytesAt(data, p).Some?
  {
    VarbytesAt(data, MessageAt(data, start)).value.1
  }

  lemma ContentIs(data: seq<byte>, start: nat)
    requires start <= |data| && ContentAt(data, start).Some?
    ensures var (content, at) := ContentAt(data, start).value;
            && content.message == VarbytesAt(data, MessageAt(data, start)).value.0
            && VarbytesAt(data, AckAt(data, start)) == Some((content.ack, at))
  {
    hide VarbytesAt, Decode;
  }

  /** The parts of a body: the sender, the fields from `start`, and the signature behind `at`. */
  ghost predicate Laid(plain: seq<byte>, sender: SenderPart, start: nat, content: Content, at: nat) {
    && ReadSender(plain).Some? && ReadSender(plain).value.0 == sender
    && start + |ReadSender(plain).value.1| == |plain|
    && ContentAt(plain, start) == Some((content, at)) && SignatureAt(plain, at).Some?
  }

  /** What is judged of a body is decided by its parts. */
  lemma BodyJudged(c: Crypto, id: Recipient, header: seq<byte>, plain: seq<byte>, sender: SenderPart, start: nat,
                   content: Content, at: nat)
    requires Laid(plain, sender, start, content, at)
    ensures BodyOf(c, id, header, plain) ==
            Judge(c, id, header + plain[..at], sender, content, SignatureAt(plain, at).value)
  {
    hide ReadSender, ContentAt, SignatureAt, Judge;
    assert start == |plain| - |ReadSender(plain).value.1|;
  }

  /** A body that is not malformed has its parts. */
  lemma BodyLaid(c: Crypto, id: Recipient, header: seq<byte>, plain: seq<byte>)
    returns (sender: SenderPart, start: nat, content: Content, at: nat)
    requires !BodyOf(c, id, header, plain).Refused?
    ensures Laid(plain, sender, start, content, at)
  {
    hide ReadSender, ContentAt, SignatureAt, Judge;
    var read := ReadSender(plain).value;
    sender, start := read.0, |plain| - |read.1|;
    var (content', at') := ContentAt(plain, start).value;
    content, at := content', at';
  }

  // ------------------------------------------------------------- what a message proves

  /** What is reported of a body with these parts. */
  function Reported(c: Crypto, id: Recipient, sender: SenderPart, content: Content): Decoded
    requires content.message.Inside?
  {
    Finish(c, id, sender, content.encoding, content.message.bytes,
           if content.ack.Outside? then [] else content.ack.bytes)
  }

  /** What was judged good carries a signature made with the sender's key, and is reported field by field. */
  lemma JudgeAuthentic(c: Crypto, made: (seq<byte>, seq<byte>, seq<byte>) -> bool, id: Recipient, signed: seq<byte>,
                       sender: SenderPart, content: Content, sig: Slice)
    requires Unforgeable(c, made) && Judge(c, id, signed, sender, content, sig).Read?
    ensures sig.Inside? && made(signed, sender.keys.signing, sig.bytes)
    ensures content.toRipe == id.ripe && content.message.Inside? && (id.isChan || content.ack.Inside?)
    ensures Judge(c, id, signed, sender, content, sig) == Read(Reported(c, id, sender, content))
  {
    hide Finish;
    assert c.verify(signed, sig.bytes, sender.keys.signing);
  }

  lemma BodyAuthentic(c: Crypto, signed: (seq<byte>, seq<byte>, seq<byte>) -> bool, id: Recipient, header: seq<byte>,
                      plain: seq<byte>) returns (sender: SenderPart, start: nat, content: Content, at: nat)
    requires Unforgeable(c, signed) && BodyOf(c, id, header, plain).Read?
    ensures Laid(plain, sender, start, content, at) && SignatureAt(plain, at).value.Inside?
    ensures signed(header + plain[..at], sender.keys.signing, SignatureAt(plain, at).value.bytes)
    ensures content.toRipe == id.ripe && content.message.Inside? && (id.isChan || content.ack.Inside?)
    ensures BodyOf(c, id, header, plain) == Read(Reported(c, id, sender, content))
  {
    hide Unforgeable, BodyOf, Judge, Laid, Reported, SignatureAt;
    sender, start, content, at := BodyLaid(c, id, header, plain);
    BodyJudged(c, id, header, plain, sender, start, content, at);
    LaidSig(plain, sender, start, content, at);
    JudgeAuthentic(c, signed, id, header + plain[..at], sender, content, SignatureAt(plain, at).value);
  }

  lemma LaidSig(plain: seq<byte>, sender: SenderPart, start: nat, content: Content, at: nat)
    requires Laid(plain, sender, start, content, at)
    ensures start <= |plain| && at <= |plain| && SignatureAt(plain, at).Some?
    ensures ContentAt(plain, start) == Some((content, at))
  {
    hide ReadSender, ContentAt, SignatureAt;
  }

  /**
   Whatever message an identity reads: the signature in it was made over the header and the
   plaintext in front of it with the key that the reported sender address is hashed from, and
   every reported field is the one that the plaintext holds.
   */
  lemma MsgAuthentic(c: Crypto, signed: (seq<byte>, seq<byte>, seq<byte>) -> bool, id: Recipient, data: seq<byte>)
    returns (header: seq<byte>, plain: seq<byte>, sender: SenderPart, start: nat, content: Content, at: nat)
    requires Unforgeable(c, signed) && MsgFor(c, id, data).Read?
    ensures HeaderOf(data).Some? && header == data[8..HeaderOf(data).value.1]
    ensures c.decrypt(data[HeaderOf(data).value.1..], id.privEncryption) == Some(plain)
    ensures Laid(plain, sender, start, content, at) && at <= |plain| && SignatureAt(plain, at).value.Inside?
    ensures signed(header + plain[..at], sender.keys.signing, SignatureAt(plain, at).value.bytes)
    ensures content.toRipe == id.ripe && content.message.Inside? && (id.isChan || content.ack.Inside?)
    ensures MsgFor(c, id, data) == Read(Reported(c, id, sender, content))
    ensures var m := MsgFor(c, id, data).value;
            && m.fromVersion == sender.version && m.fromStream == sender.stream && m.toAddress == id.address
            && m.fromAddress == Address.Text(c.sum, sender.version, sender.stream,
                                             c.ripe(sender.keys.signing, sender.keys.encryption))
  {
    hide HeaderOf, BodyOf, Laid, Unforgeable, Address.Text, DecodeSimple, SignatureAt;
    var n := HeaderOf(data).value.1;
    header, plain := data[8..n], c.decrypt(data[n..], id.privEncryption).value;
    sender, start, content, at := BodyAuthentic(c, signed, id, header, plain);
    LaidSig(plain, sender, start, content, at);
  }

  /** The declared length at `p`, and where the bytes behind it begin. */
  function LengthAt(data: seq<byte>, p: nat): uint64
    requires p <= |data| && VarbytesAt(data, p).Some?
  {
    Decode(data[p..]).value.0
  }

  function BytesAt(data: seq<byte>, p: nat): (q: nat)
    requires p <= |data| && VarbytesAt(data, p).Some?
    ensures p < q <= |data|
  {
    p + Decode(data[p..]).value.1
  }

  lemma CursorMoves(data: seq<byte>, p: nat)
    requires p <= |data| < TWO64 && VarbytesAt(data, p).Some?
    ensures var q, n, next := BytesAt(data, p), LengthAt(data, p), VarbytesAt(data, p).value.1;
            if Wraps(data, p) then VarbytesAt(data, p).value.0.Outside? && next == q + n - TWO64 < q
            else q <= next == q + n && VarbytesAt(data, p).value.0 == Inside(data[q..next])
  {
    VarbytesInside(data, p);
    var q, n := BytesAt(data, p), LengthAt(data, p);
    if q + n >= TWO64 {
      assert (q + n) % TWO64 == q + n - TWO64;
    }
    hide Decode;
  }

  /**
   How much of a message that was read lies inside what was signed. The text ends where the
   length of the ack stands; it is covered exactly when the cursor did not go back behind that
   point, which only the length of an ack that nobody copies can make it do. For an ordinary
   recipient text and ack are always covered.
   */
  lemma SignedCovers(plain: seq<byte>, id: Recipient, sender: SenderPart, start: nat, content: Content, at: nat)
    requires |plain| < TWO64 && Laid(plain, sender, start, content, at) && start <= |plain|
    requires content.message.Inside? && (id.isChan || content.ack.Inside?)
    ensures var pm, pa := MessageAt(plain, start), AckAt(plain, start);
            && start + 20 <= pm < BytesAt(plain, pm) <= pa && content.message.bytes == plain[BytesAt(plain, pm)..pa]
            && (content.ack.Inside? <==> !Wraps(plain, pa))
            && (content.ack.Inside? ==> pa < BytesAt(plain, pa) <= at
                                        && content.ack.bytes == plain[BytesAt(plain, pa)..at])
            && (pa <= at <==> !Wraps(plain, pa) || LengthAt(plain, pa) >= TWO64 - (BytesAt(plain, pa) - pa))
            && (!id.isChan ==> pa <= at)
  {
    LaidSig(plain, sender, start, content, at);
    hide Laid, VarbytesAt, SignatureAt, ContentAt, Wraps, LengthAt, BytesAt;
    ContentIs(plain, start);
    CursorMoves(plain, MessageAt(plain, start));
    CursorMoves(plain, AckAt(plain, start));
  }

  // ------------------------------------------------------------------ bodies piece by piece

  /** These bytes are read as this sender, whatever follows them. */
  ghost predicate Heads(head: seq<byte>, sender: SenderPart) {
    forall rest :: ReadSender(head + rest) == Some((sender, rest))
  }

  lemma SenderHeads(from: Sender)
    requires IsPublicKey(from.pubSigning) && IsPublicKey(from.pubEncryption)
    ensures Heads(SenderBytes(from), SenderPartOf(from))
  {
    hide SenderBytes, ReadSender;
    forall rest
      ensures ReadSender(SenderBytes(from) + rest) == Some((SenderPartOf(from), rest))
    {
      SenderReads(from, rest);
    }
  }

  /** A body up to the length of its message, which it declares as `n`. */
  function Front(head: seq<byte>, toRipe: seq<byte>, n: uint64): seq<byte> {
    head + (toRipe + Encoded(2)) + Encoded(n)
  }

  /** The cuts of a buffer made of a sender, a recipient with the encoding, a length and the rest. */
  lemma Cuts(head: seq<byte>, toRipe: seq<byte>, two: seq<byte>, length: seq<byte>, rest: seq<byte>)
    requires |toRipe| == 20
    ensures var data := head + (toRipe + two) + length + rest;
            && data == head + (toRipe + two + length + rest)
            && |head| + 20 <= |data| && data[|head|..|head| + 20] == toRipe
            && data[|head| + 20..] == two + (length + rest)
            && data[|head + (toRipe + two)|..] == length + rest
  {
  }

  /** The fields of a content, one after the other. */
  lemma ContentSteps(data: seq<byte>, start: nat, encoding: uint64, k: nat, message: Slice, pa: nat, ack: Slice,
                     at: nat)
    requires start + 20 <= |data| && Decode(data[start + 20..]) == Some((encoding, k))
    requires VarbytesAt(data, start + 20 + k) == Some((message, pa)) && VarbytesAt(data, pa) == Some((ack, at))
    ensures ContentAt(data, start) == Some((Content(data[start..start + 20], encoding, message, ack), at))
  {
    hide Decode, VarbytesAt;
  }

  /** The sender and the encoding of a body are read; what follows is decided by the two lengths. */
  lemma BodyFields(head: seq<byte>, sender: SenderPart, toRipe: seq<byte>, n: uint64, rest: seq<byte>, message: Slice,
                   pa: nat, ack: Slice, at: nat)
    requires Heads(head, sender) && |toRipe| == 20
    requires var data := Front(head, toRipe, n) + rest;
             && pa <= |data| && at <= |data| && SignatureAt(data, at).Some?
             && VarbytesAt(data, |head + (toRipe + Encoded(2))|) == Some((message, pa))
             && VarbytesAt(data, pa) == Some((ack, at))
    ensures Laid(Front(head, toRipe, n) + rest, sender, |head|, Content(toRipe, 2, message, ack), at)
  {
    hide Encoded, VarbytesAt, SignatureAt, ReadSender, Decode, ContentAt;
    var two, length := Encoded(2), Encoded(n);
    var data := Front(head, toRipe, n) + rest;
    Cuts(head, toRipe, two, length, rest);
    assert ReadSender(data) == Some((sender, toRipe + two + length + rest));
    RoundTrip(2, length + rest);
    ContentSteps(data, |head|, 2, |two|, message, pa, ack, at);
  }

  /** A length at `front` that does not wrap the sum, and one that does. */
  lemma LengthInside(front: seq<byte>, text: seq<byte>, rest: seq<byte>)
    requires |text| < TWO64 && |front + Encoded(|text|) + (text + rest)| < TWO64
    ensures VarbytesAt(front + Encoded(|text|) + (text + rest), |front|) ==
            Some((Inside(text), |front + Encoded(|text|) + text|))
  {
    hide VarbytesAt, Encoded;
    assert front + Encoded(|text|) + (text + rest) == front + Varbytes(text) + rest;
    VarbytesRead(front, text, rest);
  }

  lemma LengthWraps(front: seq<byte>, n: uint64, rest: seq<byte>)
    requires var q := |front + Encoded(n)|;
             q < TWO64 <= q + n && |front + Encoded(n) + rest| < TWO64 && q + n - TWO64 <= q + |rest| < q + n
    ensures VarbytesAt(front + Encoded(n) + rest, |front|) == Some((Outside, |front + Encoded(n)| + n - TWO64))
  {
    var data := front + Encoded(n) + rest;
    assert data[|front|..] == Encoded(n) + rest;
    RoundTrip(n, rest);
    var q := |front + Encoded(n)|;
    assert (q + n) % TWO64 == q + n - TWO64;
    hide Decode, Encoded;
  }

  /** A body whose signature follows its signed part. */
  lemma JudgedBehind(c: Crypto, id: Recipient, header: seq<byte>, front: seq<byte>, tail: seq<byte>, sender: SenderPart,
                     start: nat, content: Content, sig: Slice)
    requires Laid(front + tail, sender, start, content, |front|)
    requires SignatureAt(front + tail, |front|) == Some(sig)
    ensures BodyOf(c, id, header, front + tail) == Judge(c, id, header + front, sender, content, sig)
  {
    hide BodyOf, Laid, SignatureAt, Judge;
    FrontOf(front, tail);
    BodyJudged(c, id, header, front + tail, sender, start, content, |front|);
  }

  // ------------------------------------------------------------------ a text that was not signed

  /**
   The failing body: a channel reads a text of which only the front was signed. The sender's
   signature stands at the beginning of the text itself; the length of the ack takes the cursor
   back to it, and whatever follows it in the text, `y`, was never signed.
   */
  lemma UnsignedText(c: Crypto, id: Recipient, from: Sender, header: seq<byte>, n: uint64, y: seq<byte>)
    requires Sound(c) && Sized(c) && ValidSender(c, from) && id.isChan && |id.ripe| == 20
    requires n < TWO64 - 0x1_0000_0000 - 9 && |Front(SenderBytes(from), id.ripe, n)| + n + 9 < TWO64
    requires |Varbytes(Sign(c, header + Front(SenderBytes(from), id.ripe, n), from.privSigning)) + y| == n
    ensures var pre := Front(SenderBytes(from), id.ripe, n);
            var text := Varbytes(Sign(c, header + pre, from.privSigning)) + y;
            BodyOf(c, id, header, pre + (text + Encoded(TWO64 - n - 9))) ==
            Read(Finish(c, id, SenderPartOf(from), 2, text, []))
  {
    hide Sound, Sized, SenderBytes, Varbytes, Encoded, BodyOf, Finish, Heads, Front;
    var pre := Front(SenderBytes(from), id.ripe, n);
    SenderHeads(from);
    SignatureVerifies(c, header + pre, from.privSigning);
    UnsignedBody(c, id, SenderBytes(from), SenderPartOf(from), header, n, Sign(c, header + pre, from.privSigning), y);
  }

  lemma UnsignedBody(c: Crypto, id: Recipient, head: seq<byte>, sender: SenderPart, header: seq<byte>, n: uint64,
                     sig: seq<byte>, y: seq<byte>)
    requires Heads(head, sender) && id.isChan && |id.ripe| == 20 && |sig| < INT_LIMIT
    requires n < TWO64 - 0x1_0000_0000 - 9 && |Front(head, id.ripe, n)| + n + 9 < TWO64 && |Varbytes(sig) + y| == n
    requires c.verify(header + Front(head, id.ripe, n), sig, sender.keys.signing)
    ensures BodyOf(c, id, header, Front(head, id.ripe, n) + (Varbytes(sig) + y + Encoded(TWO64 - n - 9))) ==
            Read(Finish(c, id, sender, 2, Varbytes(sig) + y, []))
  {
    hide Varbytes, Encoded, SignatureAt, BodyOf, Finish, Laid, Heads, Front;
    var text := Varbytes(sig) + y;
    UnsignedLaid(head, sender, id.ripe, n, sig, y);
    JudgedBehind(c, id, header, Front(head, id.ripe, n), text + Encoded(TWO64 - n - 9), sender, |head|,
                 Content(id.ripe, 2, Inside(text), Outside), Inside(sig));
  }

  lemma UnsignedLaid(head: seq<byte>, sender: SenderPart, toRipe: seq<byte>, n: uint64, sig: seq<byte>, y: seq<byte>)
    requires Heads(head, sender) && |toRipe| == 20 && |sig| < INT_LIMIT
    requires n < TWO64 - 0x1_0000_0000 - 9 && |Front(head, toRipe, n)| + n + 9 < TWO64 && |Varbytes(sig) + y| == n
    ensures var pre, text := Front(head, toRipe, n), Varbytes(sig) + y;
            var plain := pre + (text + Encoded(TWO64 - n - 9));
            && Laid(plain, sender, |head|, Content(toRipe, 2, Inside(text), Outside), |pre|)
            && SignatureAt(plain, |pre|) == Some(Inside(sig))
  {
    hide Varbytes, Encoded, VarbytesAt, SignatureAt, Laid, Heads;
    var pre, back := Front(head, toRipe, n), Encoded(TWO64 - n - 9);
    var text := Varbytes(sig) + y;
    BackToText(head + (toRipe + Encoded(2)), text);
    Shift(pre, Varbytes(sig), y, back);
    SignatureRead(pre, sig, y + back);
    BodyFields(head, sender, toRipe, n, text + back, Inside(text), |pre + text|, Outside, |pre|);
  }

  lemma Shift(pre: seq<byte>, v: seq<byte>, y: seq<byte>, back: seq<byte>)
    ensures pre + ((v + y) + back) == pre + v + (y + back)
  {
  }

  lemma NineBytes(n: uint64)
    requires n > 0xffff_ffff
    ensures |Encoded(n)| == 9
  {
  }

  /** The length of the ack takes the cursor back to where the text begins. */
  lemma BackToText(front: seq<byte>, text: seq<byte>)
    requires |text| < TWO64 - 0x1_0000_0000 - 9 && |front + Encoded(|text|)| + |text| + 9 < TWO64
    ensures var pre := front + Encoded(|text|);
            var plain := pre + (text + Encoded(TWO64 - |text| - 9));
            && |plain| == |pre| + |text| + 9
            && VarbytesAt(plain, |front|) == Some((Inside(text), |pre + text|))
            && VarbytesAt(plain, |pre + text|) == Some((Outside, |pre|))
  {
    hide Encoded, VarbytesAt;
    var n := TWO64 - |text| - 9;
    NineBytes(n);
    var pre := front + Encoded(|text|);
    LengthInside(front, text, Encoded(n));
    Assoc(pre, text, Encoded(n));
    LastWraps(pre + text, n);
  }

  lemma LastWraps(front: seq<byte>, n: uint64)
    requires |front + Encoded(n)| < TWO64 <= |front + Encoded(n)| + n
    ensures VarbytesAt(front + Encoded(n), |front|) == Some((Outside, |front + Encoded(n)| + n - TWO64))
  {
    hide Encoded, VarbytesAt;
    assert front + Encoded(n) + [] == front + Encoded(n);
    LengthWraps(front, n, []);
  }

  // ------------------------------------------------------------------ past the buffer

  /**
   Exactly when reading a body takes the source past its buffer: the ripe is the reader's, and
   either the verifier is given a length that leaves the buffer, or the signature verifies and
   the length of the message wraps the 64-bit sum, or that of an ack that is copied.
   */
  ghost predicate ReadsPast(c: Crypto, id: Recipient, header: seq<byte>, plain: seq<byte>, sender: SenderPart,
                            start: nat, content: Content, at: nat)
    requires Laid(plain, sender, start, content, at)
  {
    var sig := SignatureAt(plain, at).value;
    && content.toRipe == id.ripe
    && (PastInt(plain, at)
        || (sig.Inside? && c.verify(header + plain[..at], sig.bytes, sender.keys.signing)
            && (Wraps(plain, MessageAt(plain, start)) || (!id.isChan && Wraps(plain, AckAt(plain, start))))))
  }

  /** In a buffer of up to 2 GiB only the lengths of message and ack do it, and only under a valid signature. */
  lemma OutOfBoundsExact(c: Crypto, id: Recipient, header: seq<byte>, plain: seq<byte>)
    requires |plain| < TWO64
    ensures BodyOf(c, id, header, plain).OutOfBounds? <==>
            exists sender, start, content, at ::
              Laid(plain, sender, start, content, at) && ReadsPast(c, id, header, plain, sender, start, content, at)
    ensures forall at :: |plain| <= INT_LIMIT && 0 <= at <= |plain| ==> !PastInt(plain, at)
  {
    hide BodyOf, Laid, ReadsPast, PastInt;
    if BodyOf(c, id, header, plain).OutOfBounds? {
      var sender, start, content, at := BodyLaid(c, id, header, plain);
      PastExact(c, id, header, plain, sender, start, content, at);
    }
    forall sender, start, content, at | Laid(plain, sender, start, content, at)
      ensures ReadsPast(c, id, header, plain, sender, start, content, at) <==> BodyOf(c, id, header, plain).OutOfBounds?
    {
      PastExact(c, id, header, plain, sender, start, content, at);
    }
    forall at | 0 <= at <= |plain|
      ensures PastInt(plain, at) ==> |plain| > INT_LIMIT
    {
      SignaturePast(plain, at);
    }
  }

  lemma PastExact(c: Crypto, id: Recipient, header: seq<byte>, plain: seq<byte>, sender: SenderPart, start: nat,
                  content: Content, at: nat)
    requires |plain| < TWO64 && Laid(plain, sender, start, content, at)
    ensures BodyOf(c, id, header, plain).OutOfBounds? <==>
            ReadsPast(c, id, header, plain, sender, start, content, at)
  {
    LaidSig(plain, sender, start, content, at);
    BodyJudged(c, id, header, plain, sender, start, content, at);
    hide BodyOf, Laid, VarbytesAt, SignatureAt, ContentAt, Wraps, PastInt, Finish, MessageAt, AckAt;
    ContentIs(plain, start);
    SignaturePast(plain, at);
    VarbytesInside(plain, MessageAt(plain, start));
    VarbytesInside(plain, AckAt(plain, start));
  }

  /** A signature of declared length 2^64 - 1 passes the guard and reaches the verifier as -1. */
  lemma LastNegative(front: seq<byte>)
    requires |front| + 9 < TWO64
    ensures SignatureAt(front + Encoded(TWO64 - 1), |front|) == None
    ensures VarbytesAt(front + Encoded(TWO64 - 1), |front|) == Some((Outside, |front| + 8))
  {
    AllOnes();
    hide Encoded, VarbytesAt, Decode;
    LastWraps(front, TWO64 - 1);
    assert (front + Encoded(TWO64 - 1))[|front|..] == Encoded(TWO64 - 1) + [];
    RoundTrip(TWO64 - 1, []);
    MinusOne();
    hide CInt;
  }

  lemma MinusOne()
    ensures CInt(TWO64 - 1) == -1
  {
  }

  /** A body with a signature of declared length 2^64 - 1 passes the guard and is refused all the same. */
  lemma AnySignatureLength(c: Crypto, id: Recipient, from: Sender, header: seq<byte>, message: seq<byte>,
                           ack: seq<byte>)
    requires IsPublicKey(from.pubSigning) && IsPublicKey(from.pubEncryption) && |id.ripe| == 20
    requires |message| < TWO64 && |ack| < TWO64
    requires |SenderBytes(from) + ContentBytes(id.ripe, message, ack)| + 9 < TWO64
    ensures var front := SenderBytes(from) + ContentBytes(id.ripe, message, ack);
            && VarbytesAt(front + Encoded(TWO64 - 1), |front|) == Some((Outside, |front| + 8))
            && BodyOf(c, id, header, front + Encoded(TWO64 - 1)) == Refused
  {
    hide SenderBytes, ContentBytes, Encoded, BodyOf, Heads, VarbytesAt;
    SenderHeads(from);
    LastNegative(SenderBytes(from) + ContentBytes(id.ripe, message, ack));
    SignatureRefused(c, id, SenderBytes(from), SenderPartOf(from), header, message, ack);
  }

  lemma SignatureRefused(c: Crypto, id: Recipient, head: seq<byte>, sender: SenderPart, header: seq<byte>,
                         message: seq<byte>, ack: seq<byte>)
    requires Heads(head, sender) && |id.ripe| == 20 && |message| < TWO64 && |ack| < TWO64
    requires |head + ContentBytes(id.ripe, message, ack)| + 9 < TWO64
    ensures BodyOf(c, id, header, head + ContentBytes(id.ripe, message, ack) + Encoded(TWO64 - 1)) == Refused
  {
    AllOnes();
    hide ContentOf, Encoded, ReadSender, ContentAt, SignatureAt, BodyOf;
    var fields, length := ContentOf(id.ripe, 2, message, ack), Encoded(TWO64 - 1);
    Assoc(head, fields, length);
    assert ReadSender(head + (fields + length)) == Some((sender, fields + length));
    ContentReads(head, id.ripe, 2, message, ack, length);
    LastNegative(head + fields);
    BodyRefused(c, id, header, head + fields + length, sender, |head|);
  }

  lemma BodyRefused(c: Crypto, id: Recipient, header: seq<byte>, plain: seq<byte>, sender: SenderPart, start: nat)
    requires start <= |plain| && ReadSender(plain) == Some((sender, plain[start..]))
    requires ContentAt(plain, start).Some? && SignatureAt(plain, ContentAt(plain, start).value.1).None?
    ensures BodyOf(c, id, header, plain) == Refused
  {
    hide ReadSender, ContentAt, SignatureAt, Judge;
    assert |plain| - |plain[start..]| == start;
  }

  const ZEROS: seq<byte> := [0, 0, 0, 0, 0, 0, 0, 0]

  /** Any signer's message of declared length 2^64 - 1 does it, to every recipient. */
  lemma SignedMessageLength(c: Crypto, id: Recipient, from: Sender, header: seq<byte>)
    requires Sound(c) && Sized(c) && ValidSender(c, from) && |id.ripe| == 20
    requires var front := Front(SenderBytes(from), id.ripe, TWO64 - 1) + ZEROS;
             |front + Varbytes(Sign(c, header + front, from.privSigning))| < TWO64
    ensures var front := Front(SenderBytes(from), id.ripe, TWO64 - 1) + ZEROS;
            BodyOf(c, id, header, front + Varbytes(Sign(c, header + front, from.privSigning))) == OutOfBounds
  {
    hide Sound, Sized, SenderBytes, Varbytes, Encoded, BodyOf, Heads, Front;
    var front := Front(SenderBytes(from), id.ripe, TWO64 - 1) + ZEROS;
    SenderHeads(from);
    SignatureVerifies(c, header + front, from.privSigning);
    MessagePast(c, id, SenderBytes(from), SenderPartOf(from), header, Sign(c, header + front, from.privSigning));
  }

  lemma MessagePast(c: Crypto, id: Recipient, head: seq<byte>, sender: SenderPart, header: seq<byte>, sig: seq<byte>)
    requires Heads(head, sender) && |id.ripe| == 20 && |sig| < INT_LIMIT
    requires |Front(head, id.ripe, TWO64 - 1) + ZEROS + Varbytes(sig)| < TWO64
    requires c.verify(header + (Front(head, id.ripe, TWO64 - 1) + ZEROS), sig, sender.keys.signing)
    ensures BodyOf(c, id, header, Front(head, id.ripe, TWO64 - 1) + ZEROS + Varbytes(sig)) == OutOfBounds
  {
    hide Varbytes, Encoded, SignatureAt, BodyOf, Laid, Heads, Front;
    PastLaid(head, sender, id.ripe, sig);
    JudgedBehind(c, id, header, Front(head, id.ripe, TWO64 - 1) + ZEROS, Varbytes(sig), sender, |head|,
                 Content(id.ripe, 2, Outside, Inside([])), Inside(sig));
  }

  lemma PastLaid(head: seq<byte>, sender: SenderPart, toRipe: seq<byte>, sig: seq<byte>)
    requires Heads(head, sender) && |toRipe| == 20 && |sig| < INT_LIMIT
    requires |Front(head, toRipe, TWO64 - 1) + ZEROS + Varbytes(sig)| < TWO64
    ensures var front := Front(head, toRipe, TWO64 - 1) + ZEROS;
            var plain := front + Varbytes(sig);
            && Laid(plain, sender, |head|, Content(toRipe, 2, Outside, Inside([])), |front|)
            && SignatureAt(plain, |front|) == Some(Inside(sig))
  {
    AllOnes();
    hide Varbytes, Encoded, VarbytesAt, SignatureAt, Laid, Heads;
    var pre, tail := Front(head, toRipe, TWO64 - 1), Varbytes(sig);
    var front := pre + ZEROS;
    Assoc(pre, ZEROS, tail);
    LargestThenZero(head + (toRipe + Encoded(2)), tail);
    LastSignature(front, sig);
    BodyFields(head, sender, toRipe, TWO64 - 1, ZEROS + tail, Outside, |pre| - 1, Inside([]), |front|);
  }

  /** The length 2^64 - 1 moves the cursor back onto its last byte; with zeros behind it that is an empty string. */
  lemma LargestThenZero(front: seq<byte>, rest: seq<byte>)
    requires |front| + 17 + |rest| < TWO64
    ensures var pre := front + Encoded(TWO64 - 1);
            var data := pre + (ZEROS + rest);
            && |pre| == |front| + 9 && |data| == |pre| + 8 + |rest|
            && VarbytesAt(data, |front|) == Some((Outside, |pre| - 1))
            && VarbytesAt(data, |pre| - 1) == Some((Inside([]), |pre| + 8))
  {
    AllOnes();
    hide Encoded, VarbytesAt;
    LengthWraps(front, TWO64 - 1, ZEROS + rest);
    ZerosBehind(front, Encoded(TWO64 - 1), ZEROS, rest);
    EmptyAt(front + Encoded(TWO64 - 1) + (ZEROS + rest), |front| + 8);
  }

  lemma ZerosBehind(front: seq<byte>, length: seq<byte>, zeros: seq<byte>, rest: seq<byte>)
    requires |length| == 9 && |zeros| == 8
    ensures var data := front + length + (zeros + rest);
            data[|front| + 8] == length[8] && data[|front| + 9..|front| + 17] == zeros
  {
  }

  lemma EmptyAt(data: seq<byte>, p: nat)
    requires p + 9 <= |data| < TWO64 && data[p] == 0xff && data[p + 1..p + 9] == ZEROS
    ensures VarbytesAt(data, p) == Some((Inside([]), p + 9))
  {
    hide Decode;
    var back := data[p..];
    forall i | 1 <= i < 9
      ensures back[i] == 0
    {
      assert back[i] == data[p + 1..p + 9][i - 1];
    }
    DecodeZero(back);
    assert data[p + 9..p + 9] == [];
  }

  lemma NoValue()
    ensures Be32(0, 0, 0, 0) == 0
  {
  }

  lemma DecodeZero(back: seq<byte>)
    requires |back| >= 9 && back[0] == 0xff && forall i :: 1 <= i < 9 ==> back[i] == 0
    ensures Decode(back) == Some((0, 9))
  {
    NoValue();
    hide Be32, Be16;
  }

  lemma AllOnes()
    ensures |Encoded(TWO64 - 1)| == 9 && Encoded(TWO64 - 1)[8] == 0xff
  {
  }

  // ------------------------------------------------------------------ pubkeys

  /** What a decoder reads at the front does not depend on what is behind it. */
  lemma DecodeFront(data: seq<byte>, m: nat)
    requires Decode(data).Some? && Decode(data).value.1 <= m <= |data|
    ensures Decode(data[..m]) == Decode(data)
  {
    hide Be16, Be32;
  }

  lemma VarintFront(data: seq<byte>, k: nat)
    requires ReadVarint(data).Some? && k <= |ReadVarint(data).value.1|
    ensures var (v, rest) := ReadVarint(data).value;
            ReadVarint(data[..|data| - |rest| + k]) == Some((v, rest[..k]))
  {
    var (v, n) := Decode(data).value;
    DecodeFront(data, n + k);
    assert data[..n + k][n..] == data[n..][..k];
    hide Decode;
  }

  lemma DifficultyFront(data: seq<byte>)
    requires ReadDifficulty(data).Some?
    ensures var (d, rest) := ReadDifficulty(data).value;
            ReadDifficulty(data[..|data| - |rest|]) == Some((d, []))
  {
    hide ReadVarint;
    var first := ReadVarint(data).value.1;
    var rest := ReadVarint(first).value.1;
    VarintFront(first, 0);
    VarintFront(data, |first| - |rest|);
  }

  lemma KeysFront(data: seq<byte>, m: nat)
    requires ReadKeys(data).Some? && m <= |ReadKeys(data).value.1|
    ensures var (keys, rest) := ReadKeys(data).value; ReadKeys(data[..132 + m]) == Some((keys, rest[..m]))
  {
    hide KeysOf;
    assert data[..132 + m][..132] == data[..132] && data[..132 + m][132..] == data[132..][..m];
  }

  /** The signed bytes of a key part hold exactly its keys and its difficulty. */
  lemma PayloadHolds(data: seq<byte>) returns (payload: seq<byte>, diff: seq<byte>)
    requires ReadKeys(data).Some? && ReadDifficulty(ReadKeys(data).value.1).Some?
    ensures var (keys, r1) := ReadKeys(data).value;
            var (d, r2) := ReadDifficulty(r1).value;
            && payload == data[..|data| - |r2|]
            && ReadKeys(payload) == Some((keys, diff)) && ReadDifficulty(diff) == Some((d, []))
  {
    hide ReadDifficulty, ReadKeys;
    var keys := ReadKeys(data).value;
    var rest := ReadDifficulty(keys.1).value.1;
    var m := |keys.1| - |rest|;
    payload, diff := data[..|data| - |rest|], keys.1[..m];
    KeysFront(data, m);
    DifficultyFront(keys.1);
  }

  /**
   The signature in an accepted key part was made with the key it announces, over the clear part
   and the bytes in front of it, which hold exactly the keys and the difficulty that are reported.
   */
  lemma SignedAuthentic(c: Crypto, signed: (seq<byte>, seq<byte>, seq<byte>) -> bool, clear: seq<byte>, data: seq<byte>)
    returns (payload: seq<byte>, diff: seq<byte>)
    requires Unforgeable(c, signed) && SignedPubkey(c, clear, data).Read?
    ensures var k := SignedPubkey(c, clear, data).value;
            && payload <= data && SignatureAt(data, |payload|).Some? && SignatureAt(data, |payload|).value.Inside?
            && signed(clear + payload, k.keys.signing, SignatureAt(data, |payload|).value.bytes)
            && ReadKeys(payload) == Some((k.keys, diff)) && ReadDifficulty(diff) == Some(((k.trials, k.extra), []))
  {
    hide ReadDifficulty, SignatureAt, ReadKeys;
    payload, diff := PayloadHolds(data);
  }

  /**
   A public key accepted for a candidate: its keys hash to the candidate's ripe, and the signature
   in it was made with the key it announces over the clear part and exactly its keys and difficulty.
   */
  lemma PubkeyV4Authentic(c: Crypto, signed: (seq<byte>, seq<byte>, seq<byte>) -> bool, data: seq<byte>,
                          ripe: seq<byte>, version: uint64, stream: uint64)
    returns (clear: seq<byte>, plain: seq<byte>, payload: seq<byte>, diff: seq<byte>)
    requires Unforgeable(c, signed) && PubkeyV4(c, data, ripe, version, stream).Read?
    ensures OpenV4(c, data, SecretInput(version, stream, ripe)) == Some((clear, plain)) && payload <= plain
    ensures SignatureAt(plain, |payload|).Some? && SignatureAt(plain, |payload|).value.Inside?
    ensures var k := PubkeyV4(c, data, ripe, version, stream).value;
            && c.ripe(k.keys.signing, k.keys.encryption) == ripe
            && signed(clear + payload, k.keys.signing, SignatureAt(plain, |payload|).value.bytes)
            && ReadKeys(payload) == Some((k.keys, diff)) && ReadDifficulty(diff) == Some(((k.trials, k.extra), []))
  {
    hide OpenV4, SignedPubkey, SecretInput, ReadKeys, ReadDifficulty, SignatureAt;
    var open := OpenV4(c, data, SecretInput(version, stream, ripe)).value;
    clear, plain := open.0, open.1;
    payload, diff := SignedAuthentic(c, signed, clear, plain);
  }

  /**
   Exactly when reading a key part takes the source past its buffer: the verifier is given a
   length that leaves it, which no key part of up to 2 GiB can declare.
   */
  lemma PubkeyPastExact(c: Crypto, clear: seq<byte>, data: seq<byte>)
    requires |data| < TWO64
    ensures SignedPubkey(c, clear, data).OutOfBounds? <==>
            && ReadKeys(data).Some? && ReadDifficulty(ReadKeys(data).value.1).Some?
            && PastInt(data, |data| - |ReadDifficulty(ReadKeys(data).value.1).value.1|)
    ensures SignedPubkey(c, clear, data).OutOfBounds? ==> |data| > INT_LIMIT
  {
    hide ReadDifficulty, SignatureAt, ReadKeys, PastInt;
    if ReadKeys(data).Some? && ReadDifficulty(ReadKeys(data).value.1).Some? {
      SignaturePast(data, |data| - |ReadDifficulty(ReadKeys(data).value.1).value.1|);
    }
  }

  /** Keys with a signature of declared length 2^64 - 1 pass the guard and are refused all the same. */
  lemma AnyPubkeyLength(c: Crypto, id: Sender, clear: seq<byte>)
    requires IsPublicKey(id.pubSigning) && IsPublicKey(id.pubEncryption) && |PubkeyBytes(id)| + 9 < TWO64
    ensures VarbytesAt(PubkeyBytes(id) + Encoded(TWO64 - 1), |PubkeyBytes(id)|) ==
            Some((Outside, |PubkeyBytes(id)| + 8))
    ensures SignedPubkey(c, clear, PubkeyBytes(id) + Encoded(TWO64 - 1)) == Refused
  {
    AllOnes();
    hide KeyBytes, DifficultyBytes, Encoded, ReadKeys, ReadDifficulty, VarbytesAt, SignatureAt, SignedPubkey;
    var keys, diff, tail := KeyBytes(id.doesAck, id.pubSigning, id.pubEncryption),
                            DifficultyBytes(id.trials, id.extra), Encoded(TWO64 - 1);
    Assoc(keys, diff, tail);
    KeysRead(id.doesAck, id.pubSigning, id.pubEncryption, diff + tail);
    DifficultyRead(id.trials, id.extra, tail);
    LastNegative(keys + diff);
    PubkeyRefused(c, clear, keys + diff + tail, |keys + diff|);
  }

  lemma PubkeyRefused(c: Crypto, clear: seq<byte>, data: seq<byte>, at: nat)
    requires ReadKeys(data).Some? && ReadDifficulty(ReadKeys(data).value.1).Some?
    requires at + |ReadDifficulty(ReadKeys(data).value.1).value.1| == |data| && SignatureAt(data, at).None?
    ensures SignedPubkey(c, clear, data) == Refused
  {
    hide ReadKeys, ReadDifficulty, SignatureAt;
    assert at == |data| - |ReadDifficulty(ReadKeys(data).value.1).value.1|;
  }

  // ------------------------------------------------------------------ the laws

  /** A ciphertext that spells out its key in front of the plaintext. */
  function Boxed(m: seq<byte>, pub: seq<byte>): seq<byte> {
    if |pub| == 0 then [0] + m else [1, pub[0]] + Boxed(m, pub[1..])
  }

  function Unboxed(box: seq<byte>, k: seq<byte>): Option<seq<byte>>
    decreases |k|
  {
    if |k| == 0 then (if |box| > 0 && box[0] == 0 then Some(box[1..]) else None)
    else if |box| > 1 && box[0] == 1 && box[1] == k[0] then Unboxed(box[2..], k[1..])
    else None
  }

  lemma {:induction false} BoxOpens(m: seq<byte>, k: seq<byte>, k': seq<byte>)
    ensures Unboxed(Boxed(m, k), k') == if k' == k then Some(m) else None
    decreases |k|
  {
    if |k| == 0 {
      assert ([0] + m)[1..] == m;
    } else if |k'| > 0 {
      assert ([1, k[0]] + Boxed(m, k[1..]))[2..] == Boxed(m, k[1..]);
      BoxOpens(m, k[1..], k'[1..]);
      assert k == [k[0]] + k[1..] && k' == [k'[0]] + k'[1..];
    }
  }

  /**
   All the laws asked of the primitives hold together, of primitives with a valid sender, and
   not every signature counts as made.
   */
  lemma LawsMet() returns (c: Crypto, from: Sender, signed: (seq<byte>, seq<byte>, seq<byte>) -> bool)
    ensures Sound(c) && Sized(c) && ValidSender(c, from) && Unforgeable(c, signed)
    ensures forall m, pub :: !signed(m, pub, [0])
  {
    c := Crypto((k: seq<byte>) => k, (m: seq<byte>, k: seq<byte>) => [],
                (m: seq<byte>, sig: seq<byte>, pub: seq<byte>) => |sig| == 0,
                (m: seq<byte>, pub: seq<byte>, r: seq<byte>) => Boxed(m, pub),
                (box: seq<byte>, k: seq<byte>) => Unboxed(box, k),
                (a: seq<byte>, b: seq<byte>) => seq(20, _ => 0), (d: seq<byte>) => d,
                (d: seq<byte>) => seq(32, _ => 0), (d: seq<byte>) => [0, 0, 0, 0]);
    var key: seq<byte> := [4] + seq(64, _ => 0);
    from := Sender(4, 1, key, key, key, 1000, 1000, false);
    signed := (m, pub, sig) => |sig| == 0;
    hide Boxed, Unboxed;
    forall m: seq<byte>, k: seq<byte>, k': seq<byte>
      ensures Unboxed(Boxed(m, k), k') == if k' == k then Some(m) else None
    {
      BoxOpens(m, k, k');
    }
  }
}
