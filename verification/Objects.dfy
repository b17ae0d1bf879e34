/**
 The object header of src/infra/object.c, the readers that the object parsers
 share, and the onionpeer object that src/core/message_builder.c builds and
 src/infra/object_sync.c handles.
 */
module Objects {
  import opened Numerals
  import opened Varint
  import Base32

  const PUBKEY: uint32 := 1
  const MSG: uint32 := 2
  const ONIONPEER: uint32 := 0x746f72

  // ----------------------------------------------------------------- readers

  /** A varint and the bytes after it. */
  function ReadVarint(data: seq<byte>): (r: Option<(uint64, seq<byte>)>)
    ensures r.Some? ==> |r.value.1| < |data|
  {
    var d := Decode(data);
    if d.None? then None else Some((d.value.0, data[d.value.1..]))
  }

  /** `n` bytes and the bytes after them. */
  function ReadBytes(data: seq<byte>, n: nat): (r: Option<(seq<byte>, seq<byte>)>)
    ensures r.Some? ==> |r.value.0| == n && |r.value.1| == |data| - n
  {
    if n > |data| then None else Some((data[..n], data[n..]))
  }

  /** A declared byte string: inside the buffer, or reaching past its end. */
  datatype Slice = Inside(bytes: seq<byte>) | Outside

  /** `p + n` as the parsers compute it, in 64 bits. */
  function Sum64(p: nat, n: nat): nat {
    (p + n) % TWO64
  }

  /**
   A length-prefixed byte string at `p`, and where the cursor goes. The length guard
   compares the 64-bit sum, so a length that wraps the sum is let through.
   */
  function VarbytesAt(data: seq<byte>, p: nat): (r: Option<(Slice, nat)>)
    requires p <= |data|
    ensures r.Some? ==> r.value.1 <= |data|
  {
    var d := Decode(data[p..]);
    if d.None? then None
    else
      var q, n := p + d.value.1, d.value.0;
      if Sum64(q, n) > |data| then None
      else Some((if q + n <= |data| then Inside(data[q..q + n]) else Outside, Sum64(q, n)))
  }

  /** The guard refuses a string that overruns the buffer exactly when its length is below 2^64 minus its offset. */
  lemma GuardExact(size: nat, q: nat, n: uint64)
    requires q <= size < TWO64 && q + n > size
    ensures Sum64(q, n) > size <==> n < TWO64 - q
  {
    if q + n >= TWO64 {
      assert (q + n) % TWO64 == q + n - TWO64;
    }
  }

  /** The largest length is let through at every offset but the first, and moves the cursor back by one. */
  lemma LargestLengthPasses(size: nat, q: nat)
    requires 1 <= q <= size < TWO64
    ensures Sum64(q, TWO64 - 1) == q - 1 <= size
  {
    assert (q + (TWO64 - 1)) % TWO64 == q - 1;
  }

  /** The length encoded at `p` takes the sum of the guard past 2^64. */
  predicate Wraps(data: seq<byte>, p: nat)
    requires p <= |data|
  {
    Decode(data[p..]).Some? && p + Decode(data[p..]).value.1 + Decode(data[p..]).value.0 >= TWO64
  }

  /** What the guard lets through is a string inside the buffer, unless its length wraps the sum. */
  lemma VarbytesInside(data: seq<byte>, p: nat)
    requires p <= |data| < TWO64 && VarbytesAt(data, p).Some?
    ensures VarbytesAt(data, p).value.0.Outside? <==> Wraps(data, p)
  {
    var (v, n) := Decode(data[p..]).value;
    if p + n + v > |data| {
      GuardExact(|data|, p + n, v);
    }
  }

  /**
   The signature at `p`, as the verifier gets it: its length is cast to `int`. The verifier
   refuses a negative one; any other may take it past the end of the buffer.
   */
  function SignatureAt(data: seq<byte>, p: nat): (r: Option<Slice>)
    requires p <= |data|
  {
    if VarbytesAt(data, p).None? then None
    else
      var d := Decode(data[p..]).value;
      var q, n := p + d.1, CInt(d.0);
      if n < 0 then None else Some(if q + n <= |data| then Inside(data[q..q + n]) else Outside)
  }

  /** The length of a signature reaches the verifier as an `int` that leaves the buffer. */
  predicate PastInt(data: seq<byte>, p: nat)
    requires p <= |data|
  {
    VarbytesAt(data, p).Some? && CInt(Decode(data[p..]).value.0) > |data| - (p + Decode(data[p..]).value.1)
  }

  /** The verifier is taken past the buffer exactly by such a length, and by none in a buffer of up to 2 GiB. */
  lemma SignaturePast(data: seq<byte>, p: nat)
    requires p <= |data| < TWO64
    ensures SignatureAt(data, p) == Some(Outside) <==> PastInt(data, p)
    ensures PastInt(data, p) ==> Wraps(data, p) && |data| > INT_LIMIT
  {
    if VarbytesAt(data, p).Some? {
      VarbytesInside(data, p);
      var (v, n) := Decode(data[p..]).value;
      if Wraps(data, p) && |data| <= INT_LIMIT {
        WrappedInt(v, p + n);
      }
    }
    hide CInt, Decode;
  }

  /** A length that wraps the sum is a negative `int`, unless it stands more than 2 GiB into the buffer. */
  lemma WrappedInt(v: uint64, q: nat)
    requires q <= INT_LIMIT && q + v >= TWO64
    ensures CInt(v) == v - TWO64 < 0
  {
    assert v % TWO32 == v - (TWO64 - TWO32);
  }

  function Varbytes(data: seq<byte>): seq<byte>
    requires |data| < TWO64
  {
    Encoded(|data|) + data
  }

  lemma VarintReads(v: uint64, rest: seq<byte>)
    ensures ReadVarint(Encoded(v) + rest) == Some((v, rest))
  {
    RoundTrip(v, rest);
  }

  lemma BytesRead(data: seq<byte>, rest: seq<byte>)
    ensures ReadBytes(data + rest, |data|) == Some((data, rest))
  {
    assert (data + rest)[..|data|] == data;
  }

  /** A written string is read back wherever it stands in a buffer. */
  lemma VarbytesRead(front: seq<byte>, b: seq<byte>, rest: seq<byte>)
    requires |b| < TWO64 && |front + Varbytes(b) + rest| < TWO64
    ensures var data := front + Varbytes(b) + rest;
            VarbytesAt(data, |front|) == Some((Inside(b), |front| + |Varbytes(b)|))
  {
    hide Decode, Encoded, Size;
    var data := front + Varbytes(b) + rest;
    StringSlices(front, Encoded(|b|), b, rest);
    RoundTrip(|b|, b + rest);
  }

  lemma StringSlices(front: seq<byte>, length: seq<byte>, b: seq<byte>, rest: seq<byte>)
    ensures var data := front + (length + b) + rest;
            var q := |front| + |length|;
            data[|front|..] == length + (b + rest) && data[q..q + |b|] == b
  {
  }

  /** The readers as the parsers use them: a cursor into the data, advanced past what was read. */
  method TakeVarint(data: seq<byte>, p: nat) returns (ok: bool, v: uint64, next: nat)
    requires p <= |data|
    ensures ok <==> ReadVarint(data[p..]).Some?
    ensures ok ==> p < next <= |data| && ReadVarint(data[p..]) == Some((v, data[next..]))
  {
    var d := Decode(data[p..]);
    if d.None? {
      return false, 0, p;
    }
    ok, v, next := true, d.value.0, p + d.value.1;
  }

  method TakeBytes(data: seq<byte>, p: nat, n: nat) returns (ok: bool, b: seq<byte>, next: nat)
    requires p <= |data|
    ensures ok <==> ReadBytes(data[p..], n).Some?
    ensures ok ==> p <= next <= |data| && ReadBytes(data[p..], n) == Some((b, data[next..]))
  {
    if p + n > |data| {
      return false, [], p;
    }
    assert data[p..][..n] == data[p..p + n] && data[p..][n..] == data[p + n..];
    ok, b, next := true, data[p..p + n], p + n;
  }

  /** The length guard and the cursor of the parsers. */
  method TakeVarbytes(data: seq<byte>, p: nat) returns (ok: bool, b: Slice, next: nat)
    requires p <= |data|
    ensures ok <==> VarbytesAt(data, p).Some?
    ensures next <= |data| && (ok ==> VarbytesAt(data, p) == Some((b, next)))
  {
    b, next := Outside, p;
    var d := Decode(data[p..]);
    if d.None? {
      return false, b, next;
    }
    var q, n := p + d.value.1, d.value.0;
    if Sum64(q, n) > |data| {
      return false, b, next;
    }
    if q + n <= |data| {
      b := Inside(data[q..q + n]);
    }
    ok, next := true, Sum64(q, n);
  }

  /** The length guard, and the cast on the way to the verifier. */
  method TakeSignature(data: seq<byte>, p: nat) returns (sig: Option<Slice>)
    requires p <= |data|
    ensures sig == SignatureAt(data, p)
  {
    hide CInt;
    var d := Decode(data[p..]);
    if d.None? || Sum64(p + d.value.1, d.value.0) > |data| {
      return None;
    }
    var q, n := p + d.value.1, CInt(d.value.0);
    if n < 0 {
      return None;
    }
    sig := Some(if q + n <= |data| then Inside(data[q..q + n]) else Outside);
  }

  lemma SignatureRead(front: seq<byte>, b: seq<byte>, rest: seq<byte>)
    requires |b| < INT_LIMIT && |front + Varbytes(b) + rest| < TWO64
    ensures SignatureAt(front + Varbytes(b) + rest, |front|) == Some(Inside(b))
  {
    var data := front + Varbytes(b) + rest;
    VarbytesRead(front, b, rest);
    assert data[|front|..] == Encoded(|b|) + (b + rest);
    RoundTrip(|b|, b + rest);
    hide VarbytesAt, Decode, CInt;
    var q := |front| + Size(|b|);
    assert data[q..q + |b|] == b;
  }

  // ------------------------------------------------------------------ header

  datatype Header = Header(nonce: uint64, expires: uint64, kind: uint32, version: uint64, stream: uint64)

  /** `append_common_header`: the header without its nonce. */
  function CommonHeader(expires: uint64, kind: uint32, version: uint64, stream: uint64): seq<byte> {
    BigEndian(expires, 8) + BigEndian(kind, 4) + Encoded(version) + Encoded(stream)
  }

  /** The header of an object and the length it takes. */
  function HeaderOf(data: seq<byte>): (r: Option<(Header, nat)>)
    ensures r.Some? ==> 20 <= r.value.1 <= |data|
  {
    if |data| < 20 then None else
    var ver := Decode(data[20..]);
    if ver.None? then None else
    var str := Decode(data[20 + ver.value.1..]);
    if str.None? then None else
    Some((Header(Be64(data), Be64(data[8..]), ReadBe32(data[16..]), ver.value.0, str.value.0),
          20 + ver.value.1 + str.value.1))
  }

  /** `bm_object_parse_header` */
  method ParseHeader(data: seq<byte>) returns (r: Option<(Header, nat)>)
    ensures r == HeaderOf(data)
  {
    if |data| < 8 + 8 + 4 {
      return None;
    }
    var nonce := ReadBe64(data);
    var expires := ReadBe64(data[8..]);
    var kind := ReadBe32(data[16..]);
    var offset := 20;
    var consumed := Decode(data[offset..]);
    if consumed.None? {
      return None;
    }
    var version := consumed.value.0;
    offset := offset + consumed.value.1;
    consumed := Decode(data[offset..]);
    if consumed.None? {
      return None;
    }
    r := Some((Header(nonce, expires, kind, version, consumed.value.0), offset + consumed.value.1));
  }

  /** A header is read exactly from three fixed numbers and two varints, however these are spelled. */
  lemma HeaderExact(data: seq<byte>, h: Header, n: nat)
    ensures HeaderOf(data) == Some((h, n)) <==>
            && n <= |data|
            && exists k :: 20 <= k <= n && Spells(data[20..k], h.version) && Spells(data[k..n], h.stream)
                           && data[..20] == BigEndian(h.nonce, 8) + BigEndian(h.expires, 8) + BigEndian(h.kind, 4)
  {
    hide Spells, Decode, BigEndian;
    if |data| >= 20 {
      FixedNumbers(data, h.nonce, h.expires, h.kind);
      if HeaderOf(data) == Some((h, n)) {
        var k := 20 + Decode(data[20..]).value.1;
        DecodeExact(data[20..], h.version, k - 20);
        DecodeExact(data[k..], h.stream, n - k);
        SliceTwice(data, 20, k);
        SliceTwice(data, k, n);
      }
      forall k | 20 <= k <= n <= |data| && Spells(data[20..k], h.version) && Spells(data[k..n], h.stream)
        ensures Decode(data[20..]) == Some((h.version, k - 20)) && Decode(data[k..]) == Some((h.stream, n - k))
      {
        DecodeExact(data[20..], h.version, k - 20);
        DecodeExact(data[k..], h.stream, n - k);
        SliceTwice(data, 20, k);
        SliceTwice(data, k, n);
      }
    }
  }

  lemma SliceTwice(data: seq<byte>, from: nat, to: nat)
    requires from <= to <= |data|
    ensures data[from..][..to - from] == data[from..to]
  {
  }

  lemma FixedNumbers(data: seq<byte>, nonce: uint64, expires: uint64, kind: uint32)
    requires |data| >= 20
    ensures data[..20] == BigEndian(nonce, 8) + BigEndian(expires, 8) + BigEndian(kind, 4) <==>
            Be64(data) == nonce && Be64(data[8..]) == expires && ReadBe32(data[16..]) == kind
  {
    hide BigEndian;
    var a, b, c := data[..8], data[8..16], data[16..20];
    assert data[..20] == a + b + c && data[8..][..8] == b;
    Be64Exact(data, nonce);
    Be64Exact(data[8..], expires);
    Be32Exact(data[16..], kind);
    assert data[16..][..4] == c;
    ThreeParts(BigEndian(nonce, 8), BigEndian(expires, 8), BigEndian(kind, 4));
  }

  lemma ThreeParts(x: seq<byte>, y: seq<byte>, z: seq<byte>)
    requires |x| == 8 && |y| == 8 && |z| == 4
    ensures (x + y + z)[..8] == x && (x + y + z)[8..16] == y && (x + y + z)[16..20] == z
  {
  }

  /** A built header, behind the nonce that the proof of work puts in front, parses back. */
  lemma HeaderRoundTrip(nonce: uint64, expires: uint64, kind: uint32, version: uint64, stream: uint64, rest: seq<byte>)
    ensures var header := CommonHeader(expires, kind, version, stream);
            var data := BigEndian(nonce, 8) + (header + rest);
            && HeaderOf(data) == Some((Header(nonce, expires, kind, version, stream), 8 + |header|))
            && data[8..8 + |header|] == header && data[8 + |header|..] == rest
  {
    var header := CommonHeader(expires, kind, version, stream);
    var tail := Encoded(stream) + rest;
    var data := BigEndian(nonce, 8) + (header + rest);
    HeaderSlices(BigEndian(nonce, 8), BigEndian(expires, 8), BigEndian(kind, 4), Encoded(version), Encoded(stream),
                 rest);
    Be64RoundTrip(nonce, header + rest);
    Be64RoundTrip(expires, BigEndian(kind, 4) + (Encoded(version) + tail));
    Be32RoundTrip(kind, Encoded(version) + tail);
    RoundTrip(version, tail);
    RoundTrip(stream, rest);
  }

  lemma HeaderSlices(n: seq<byte>, e: seq<byte>, k: seq<byte>, v: seq<byte>, s: seq<byte>, rest: seq<byte>)
    requires |n| == 8 && |e| == 8 && |k| == 4
    ensures var data := n + ((e + k + v + s) + rest);
            && data[8..] == e + (k + (v + (s + rest))) && data[16..] == k + (v + (s + rest))
            && data[20..] == v + (s + rest) && data[20 + |v|..] == s + rest
            && data[8..20 + |v| + |s|] == e + k + v + s && data[20 + |v| + |s|..] == rest
  {
  }

  // --------------------------------------------------------------- onionpeer

  const ONIONCAT_PREFIX: seq<byte> := [0xfd, 0x87, 0xd8, 0x7e, 0xeb, 0x43]
  const V3_CHARS := 56
  const V3_KEY_LEN := 35
  const SUFFIX := ".onion"

  datatype Peer = Peer(host: string, port: int, stream: int)

  ghost predicate IsV3Onion(host: string) {
    |host| == V3_CHARS + 6 && Base32.AllInAlphabet(host[..V3_CHARS]) && host[V3_CHARS..] == SUFFIX
  }

  function OnionBody(port: uint64, key: seq<byte>): seq<byte> {
    Encoded(port) + (ONIONCAT_PREFIX + key)
  }

  /** `bm_build_onionpeer`: refuses everything that is not a v3 onion name. */
  method BuildOnionpeer(host: string, port: uint64, stream: uint64, expires: uint64) returns (r: Option<seq<byte>>)
    requires port < 0x1_0000
    ensures r == if IsV3Onion(host)
                 then Some(CommonHeader(expires, ONIONPEER, 1, stream)
                           + OnionBody(port, Base32.Decoding(host[..V3_CHARS])))
                 else None
  {
    if |host| != V3_CHARS + |SUFFIX| || host[V3_CHARS..] != SUFFIX {
      return None;
    }
    var key := Base32.DecodeLower(host[..V3_CHARS]);
    if |key| != V3_KEY_LEN {
      return None;
    }
    var b := CommonHeader(expires, ONIONPEER, 1, stream);
    b := b + Encoded(port);
    b := b + ONIONCAT_PREFIX;
    b := b + key;
    assert b == CommonHeader(expires, ONIONPEER, 1, stream) + OnionBody(port, key);
    r := Some(b);
  }

  /** The peer that the body of an onionpeer object announces, if it is a well-formed v3 one. */
  function PeerOf(stream: uint64, body: seq<byte>): Option<Peer> {
    var port := Decode(body);
    if port.None? || port.value.0 == 0 || port.value.0 > 65535 then None else
    var host := body[port.value.1..];
    if |host| != 6 + V3_KEY_LEN || host[..6] != ONIONCAT_PREFIX then None
    else Some(Peer(Base32.Encoding(host[6..]) + SUFFIX, port.value.0, CInt(stream)))
  }

  /** `handle_incoming_onionpeer`: the peer to register, or nothing. */
  method HandleOnionpeer(stream: uint64, body: seq<byte>) returns (r: Option<Peer>)
    ensures r == PeerOf(stream, body)
    ensures r.Some? ==> IsV3Onion(r.value.host) && 1 <= r.value.port <= 65535
  {
    var port := Decode(body);
    if port.None? || port.value.0 == 0 || port.value.0 > 65535 {
      return None;
    }
    var host := body[port.value.1..];
    if |host| != |ONIONCAT_PREFIX| + V3_KEY_LEN || host[..6] != ONIONCAT_PREFIX {
      return None;
    }
    var name := Base32.EncodeLower(host[6..]);
    EncodingIsOnion(host[6..]);
    r := Some(Peer(name + SUFFIX, port.value.0, CInt(stream)));
  }

  lemma EncodingIsOnion(key: seq<byte>)
    requires |key| == V3_KEY_LEN
    ensures IsV3Onion(Base32.Encoding(key) + SUFFIX)
  {
    var n := Base32.EncodedLen(|key|);
    ValueBounds(256, key);
    var v := Value(256, key) * Pow(2, 5 * n - 8 * |key|);
    Base32.DigitsOfChars(Base32.Quintets(v, n));
    var host := Base32.Encoding(key) + SUFFIX;
    assert host[..V3_CHARS] == Base32.Encoding(key) && host[V3_CHARS..] == SUFFIX;
  }

  /** A body announces a peer exactly when a port is followed by the prefix and the peer's key, and nothing else. */
  lemma PeerExact(stream: uint64, body: seq<byte>, p: Peer)
    ensures PeerOf(stream, body) == Some(p) <==>
            && IsV3Onion(p.host) && 1 <= p.port <= 65535 && p.stream == CInt(stream)
            && Decode(body).Some? && Decode(body).value.0 == p.port
            && body[Decode(body).value.1..] == ONIONCAT_PREFIX + Base32.Decoding(p.host[..V3_CHARS])
  {
    hide Decode, CInt, Base32.AllInAlphabet;
    if Decode(body).Some? {
      var rest := body[Decode(body).value.1..];
      if PeerOf(stream, body) == Some(p) {
        EncodingIsOnion(rest[6..]);
        Base32.DecodeEncode(rest[6..]);
        assert p.host[..V3_CHARS] == Base32.Encoding(rest[6..]);
        assert rest == rest[..6] + rest[6..];
      }
      if IsV3Onion(p.host) {
        var name := p.host[..V3_CHARS];
        var key := Base32.Decoding(name);
        Base32.EncodeDecode(name);
        assert p.host == name + SUFFIX;
        assert (ONIONCAT_PREFIX + key)[..6] == ONIONCAT_PREFIX && (ONIONCAT_PREFIX + key)[6..] == key;
      }
    }
  }

  /** The peer an object announces: its header must parse and carry the onionpeer type. */
  function Announced(data: seq<byte>): Option<Peer> {
    var h := HeaderOf(data);
    if h.None? || h.value.0.kind != ONIONPEER then None
    else PeerOf(h.value.0.stream, data[h.value.1..])
  }

  /**
   A v3 onion name with a port survives being built into an object, given a
   nonce, and handled by the receiver, exactly when the port is not zero.
   */
  lemma OnionRoundTrip(host: string, port: uint64, stream: uint64, expires: uint64, nonce: uint64)
    requires IsV3Onion(host) && port < 0x1_0000
    ensures var key := Base32.Decoding(host[..V3_CHARS]);
            var payload := CommonHeader(expires, ONIONPEER, 1, stream) + OnionBody(port, key);
            Announced(BigEndian(nonce, 8) + payload) ==
            if port > 0 then Some(Peer(host, port, CInt(stream))) else None
  {
    hide Base32.AllInAlphabet, BigEndian, Encoded, Decode, HeaderOf, CommonHeader;
    var name := host[..V3_CHARS];
    var key := Base32.Decoding(name);
    HeaderRoundTrip(nonce, expires, ONIONPEER, 1, stream, OnionBody(port, key));
    RoundTrip(port, ONIONCAT_PREFIX + key);
    var tail := OnionBody(port, key)[Size(port)..];
    assert tail == ONIONCAT_PREFIX + key;
    assert tail[..6] == ONIONCAT_PREFIX && tail[6..] == key;
    Base32.EncodeDecode(name);
    assert host == name + SUFFIX;
  }
}
