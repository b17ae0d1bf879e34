/**
 Variable-length integers (src/common/varint.c): one byte below 0xfd, otherwise
 a marker and two, four or eight big-endian bytes. Also the fixed-width
 big-endian integers of src/infra/object.c and src/core/message_builder.c.
 */
module Varint {
  import opened Numerals

  const TWO32 := 0x1_0000_0000
  const TWO64 := 0x1_0000_0000_0000_0000

  type uint64 = x: int | 0 <= x < TWO64
  type uint32 = x: int | 0 <= x < TWO32

  const INT_LIMIT := 0x8000_0000

  /** A cast to a 32-bit `int`. */
  function CInt(n: uint64): (r: int)
    ensures -INT_LIMIT <= r < INT_LIMIT && r <= n && (n < INT_LIMIT ==> r == n)
  {
    if n % TWO32 < INT_LIMIT then n % TWO32 else n % TWO32 - TWO32
  }

  /** The low `n` bytes of `v`, most significant first. */
  function BigEndian(v: nat, n: nat): (r: seq<byte>)
    ensures |r| == n
  {
    if n == 0 then [] else BigEndian(v / 256, n - 1) + [v % 256]
  }

  lemma {:induction false} BigEndianValue(v: nat, n: nat)
    requires v < Pow(256, n)
    ensures Value(256, BigEndian(v, n)) == v
  {
    if n > 0 {
      BigEndianValue(v / 256, n - 1);
      ValueSnoc(256, BigEndian(v / 256, n - 1), v % 256);
    }
  }

  lemma BigEndianUnique(bytes: seq<byte>)
    ensures 0 <= Value(256, bytes) && BigEndian(Value(256, bytes), |bytes|) == bytes
  {
    ValueBounds(256, bytes);
    BigEndianValue(Value(256, bytes), |bytes|);
    ValueUnique(256, bytes, BigEndian(Value(256, bytes), |bytes|));
  }

  lemma Powers()
    ensures Pow(256, 2) == 0x1_0000 && Pow(256, 4) == TWO32 && Pow(256, 8) == TWO64
  {
    assert Pow(256, 1) == 256;
    assert Pow(256, 3) == 0x100_0000;
    assert Pow(256, 4) == TWO32;
    assert Pow(256, 5) == 0x100_0000_0000;
    assert Pow(256, 6) == 0x1_0000_0000_0000;
    assert Pow(256, 7) == 0x100_0000_0000_0000;
  }

  // ------------------------------------------------------------------ varint

  /** `bm_varint_size` */
  function Size(v: uint64): (n: nat)
    ensures n in {1, 3, 5, 9}
  {
    if v < 0xfd then 1 else if v <= 0xffff then 3 else if v <= 0xffff_ffff then 5 else 9
  }

  function Marker(size: nat): byte {
    if size == 3 then 0xfd else if size == 5 then 0xfe else 0xff
  }

  /** The bytes of a varint. */
  function Encoded(v: uint64): (r: seq<byte>)
    ensures |r| == Size(v)
  {
    if v < 0xfd then [v] else [Marker(Size(v))] + BigEndian(v, Size(v) - 1)
  }

  /** `bm_varint_encode`: writes byte by byte into the caller's buffer, and nowhere else. */
  method EncodeInto(out: array<byte>, at: nat, v: uint64)
    requires at + Size(v) <= out.Length
    modifies out
    ensures out[at..at + Size(v)] == Encoded(v)
    ensures out[..at] == old(out[..at]) && out[at + Size(v)..] == old(out[at + Size(v)..])
  {
    var n := 0;
    if v < 0xfd {
      out[at] := v;
    } else if v <= 0xffff {
      out[at] := 0xfd;
      n := 2;
    } else if v <= 0xffff_ffff {
      out[at] := 0xfe;
      n := 4;
    } else {
      out[at] := 0xff;
      n := 8;
    }
    assert n + 1 == Size(v);
    WriteBigEndian(out, at + 1, v, n);
    assert out[..at] == out[..at + 1][..at];
    assert out[at..at + 1 + n] == [out[..at + 1][at]] + out[at + 1..at + 1 + n];
  }

  /** The shifted bytes of `v`, one assignment each, most significant first. */
  method WriteBigEndian(out: array<byte>, at: nat, v: nat, n: nat)
    requires at + n <= out.Length
    modifies out
    ensures out[at..at + n] == BigEndian(v, n)
    ensures out[..at] == old(out[..at]) && out[at + n..] == old(out[at + n..])
    decreases n
  {
    if n > 0 {
      WriteBigEndian(out, at, v / 256, n - 1);
      ghost var before, front, behind := out[..at], out[at..at + n - 1], out[at + n - 1..];
      out[at + n - 1] := v % 256;
      assert out[..at] == before && out[at..at + n] == front + [v % 256] && out[at + n..] == behind[1..];
      assert old(out[at + n..]) == old(out[at + n - 1..])[1..];
    }
  }

  function Be16(a: int, b: int): int {
    a * 0x100 + b
  }

  function Be32(a: int, b: int, c: int, d: int): int {
    a * 0x100_0000 + b * 0x1_0000 + c * 0x100 + d
  }

  /** `bm_varint_decode`: the value and the bytes consumed, or nothing when the input is too short. */
  function Decode(data: seq<byte>): (r: Option<(uint64, nat)>)
    ensures r.Some? ==> 1 <= r.value.1 <= |data|
  {
    if |data| < 1 then None
    else if data[0] < 0xfd then Some((data[0], 1))
    else if data[0] == 0xfd then
      if |data| < 3 then None else Some((Be16(data[1], data[2]), 3))
    else if data[0] == 0xfe then
      if |data| < 5 then None else Some((Be32(data[1], data[2], data[3], data[4]), 5))
    else if |data| < 9 then None
    else Some((Be32(data[1], data[2], data[3], data[4]) * TWO32 + Be32(data[5], data[6], data[7], data[8]), 9))
  }

  lemma ValueOf2(b: seq<byte>)
    requires |b| == 2
    ensures Value(256, b) == Be16(b[0], b[1])
  {
    assert b[..1][..0] == [];
    assert Value(256, b[..1]) == b[0];
  }

  lemma ValueOf4(b: seq<byte>)
    requires |b| == 4
    ensures Value(256, b) == Be32(b[0], b[1], b[2], b[3])
  {
    ValueOf2(b[..2]);
    assert b[..3][..2] == b[..2];
    assert Value(256, b[..3]) == Value(256, b[..2]) * 256 + b[2];
  }

  lemma ValueOf8(b: seq<byte>)
    requires |b| == 8
    ensures Value(256, b) == Be32(b[0], b[1], b[2], b[3]) * TWO32 + Be32(b[4], b[5], b[6], b[7])
  {
    ValueOf4(b[..4]);
    ValueOf4(b[4..]);
    assert b == b[..4] + b[4..];
    ValueConcat(256, b[..4], b[4..]);
    Powers();
  }

  /** The consumed bytes after the marker are the big-endian numeral of the decoded value. */
  lemma DecodeNumeral(data: seq<byte>)
    requires Decode(data).Some?
    ensures var (v, n) := Decode(data).value;
            n > 1 ==> data[0] == Marker(n) && Value(256, data[1..n]) == v && BigEndian(v, n - 1) == data[1..n]
  {
    var (v, n) := Decode(data).value;
    if n > 1 {
      var tail := data[1..n];
      BigEndianUnique(tail);
      if n == 3 {
        ValueOf2(tail);
      } else if n == 5 {
        ValueOf4(tail);
      } else {
        ValueOf8(tail);
      }
    }
  }

  /** Decoding what was encoded, whatever follows it. */
  lemma RoundTrip(v: uint64, rest: seq<byte>)
    ensures Decode(Encoded(v) + rest) == Some((v, Size(v)))
  {
    Powers();
    var e := Encoded(v);
    var n := Size(v);
    if n > 1 {
      BigEndianValue(v, n - 1);
      assert e[1..n] == BigEndian(v, n - 1);
      if n == 3 {
        ValueOf2(e[1..n]);
      } else if n == 5 {
        ValueOf4(e[1..n]);
      } else {
        ValueOf8(e[1..n]);
      }
    }
  }

  /**
   Every accepted input is at least as long as the encoding of its value, and
   equally long exactly when it starts with that encoding.
   */
  lemma DecodeShortest(data: seq<byte>)
    requires Decode(data).Some?
    ensures var (v, n) := Decode(data).value;
            Size(v) <= n && (Size(v) == n <==> data[..n] == Encoded(v))
  {
    var (v, n) := Decode(data).value;
    DecodeNumeral(data);
    Powers();
    if n == Size(v) {
      assert data[..n] == [data[0]] + data[1..n];
    }
  }

  /** The bytes are a varint of `v`, the shortest or a longer one. */
  predicate Spells(bytes: seq<byte>, v: nat) {
    || (v < 0xfd && bytes == [v])
    || (v < 0x1_0000 && bytes == [0xfd] + BigEndian(v, 2))
    || (v < TWO32 && bytes == [0xfe] + BigEndian(v, 4))
    || (v < TWO64 && bytes == [0xff] + BigEndian(v, 8))
  }

  /** Exactly the spellings of a number decode to it; every input that is long enough starts with one. */
  lemma DecodeExact(data: seq<byte>, v: uint64, n: nat)
    ensures Decode(data) == Some((v, n)) <==> n <= |data| && Spells(data[..n], v)
    ensures Decode(data).None? <==>
            |data| < (if |data| == 0 || data[0] < 0xfd then 1 else if data[0] == 0xfd then 3
                      else if data[0] == 0xfe then 5 else 9)
  {
    hide BigEndian;
    if Decode(data).Some? {
      DecodeNumeral(data);
      Powers();
      var (w, m) := Decode(data).value;
      NumeralBelow(data, w, m);
      assert data[..m] == [data[0]] + data[1..m];
    }
    if n <= |data| && Spells(data[..n], v) {
      SpellingRead(data, v, n);
    }
  }

  lemma NumeralBelow(data: seq<byte>, v: uint64, n: nat)
    requires Decode(data) == Some((v, n))
    ensures n == 1 || (n == 3 && v < 0x1_0000) || (n == 5 && v < TWO32) || n == 9
  {
  }

  lemma SpellingRead(data: seq<byte>, v: uint64, n: nat)
    requires n <= |data| && Spells(data[..n], v)
    ensures Decode(data) == Some((v, n))
  {
    hide BigEndian;
    Powers();
    assert n > 0 && data[0] == data[..n][0];
    if n > 1 {
      var tail := data[1..n];
      assert data[..n][1..] == tail;
      BigEndianValue(v, n - 1);
      if n == 3 {
        ValueOf2(tail);
      } else if n == 5 {
        ValueOf4(tail);
      } else {
        ValueOf8(tail);
      }
    }
  }

  // ------------------------------------------------------------- fixed width

  /** `read_be32` */
  function ReadBe32(p: seq<byte>): uint32
    requires |p| >= 4
  {
    Be32(p[0], p[1], p[2], p[3])
  }

  /** `read_be64`: eight times shift and add. */
  method ReadBe64(p: seq<byte>) returns (v: uint64)
    requires |p| >= 8
    ensures v == Be64(p)
  {
    Powers();
    var acc: int := 0;
    for i := 0 to 8
      invariant acc == Value(256, p[..i])
    {
      assert p[..i + 1] == p[..i] + [p[i]];
      ValueSnoc(256, p[..i], p[i]);
      acc := acc * 256 + p[i];
    }
    ValueBounds(256, p[..8]);
    v := acc;
  }

  function Be64(p: seq<byte>): uint64
    requires |p| >= 8
  {
    Powers();
    ValueBounds(256, p[..8]);
    Value(256, p[..8])
  }

  lemma Be32RoundTrip(v: uint32, rest: seq<byte>)
    ensures ReadBe32(BigEndian(v, 4) + rest) == v
  {
    Powers();
    BigEndianValue(v, 4);
    ValueOf4(BigEndian(v, 4));
  }

  lemma Be64RoundTrip(v: uint64, rest: seq<byte>)
    ensures Be64(BigEndian(v, 8) + rest) == v
  {
    Powers();
    BigEndianValue(v, 8);
    assert (BigEndian(v, 8) + rest)[..8] == BigEndian(v, 8);
  }

  /** The first bytes are the numeral of what is read from them. */
  lemma Be64Exact(p: seq<byte>, v: uint64)
    requires |p| >= 8
    ensures Be64(p) == v <==> p[..8] == BigEndian(v, 8)
  {
    Powers();
    BigEndianUnique(p[..8]);
    BigEndianValue(v, 8);
    hide BigEndian, Value;
  }

  lemma Be32Exact(p: seq<byte>, v: uint32)
    requires |p| >= 4
    ensures ReadBe32(p) == v <==> p[..4] == BigEndian(v, 4)
  {
    Powers();
    ValueOf4(p[..4]);
    BigEndianUnique(p[..4]);
    BigEndianValue(v, 4);
    hide BigEndian, Value;
  }

  /** The cast is the one number in range that differs by a multiple of 2^32. */
  lemma CastExact(v: uint64, r: int)
    ensures CInt(v) == r <==> -INT_LIMIT <= r < INT_LIMIT && (v - r) % TWO32 == 0
  {
    if -INT_LIMIT <= r < INT_LIMIT && (v - r) % TWO32 == 0 {
      assert v == (v - r) / TWO32 * TWO32 + r;
    }
  }
}
