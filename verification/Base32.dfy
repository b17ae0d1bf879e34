/**
 Lower-case base32 without padding, as section 6 of RFC 4648 defines it: the
 encoder of src/infra/object_sync.c and the decoder of
 src/core/message_builder.c. Both push bits through a 64-bit buffer whose high
 bits fall off; the bits still to be emitted never do.
 */
module Base32 {
  import opened Numerals
  import opened Varint

  function CharOf(d: int): char
    requires 0 <= d < 32
  {
    if d < 26 then 'a' + d as char else '2' + (d - 26) as char
  }

  predicate InAlphabet(c: char) {
    'a' <= c <= 'z' || '2' <= c <= '7'
  }

  function DigitOf(c: char): (d: int)
    requires InAlphabet(c)
    ensures 0 <= d < 32 && CharOf(d) == c
  {
    if c >= 'a' then (c - 'a') as int else (c - '2') as int + 26
  }

  lemma CharOfInjective(d: int)
    requires 0 <= d < 32
    ensures InAlphabet(CharOf(d)) && DigitOf(CharOf(d)) == d
  {
  }

  predicate AllInAlphabet(s: string) {
    forall i :: 0 <= i < |s| ==> InAlphabet(s[i])
  }

  function DigitsOf(s: string): (ds: seq<int>)
    requires AllInAlphabet(s)
    ensures |ds| == |s| && Digits(32, ds)
    ensures forall i :: 0 <= i < |s| ==> ds[i] == DigitOf(s[i])
  {
    seq(|s|, i requires 0 <= i < |s| => DigitOf(s[i]))
  }

  function Chars(ds: seq<int>): (s: string)
    requires Digits(32, ds)
    ensures |s| == |ds| && forall i :: 0 <= i < |ds| ==> s[i] == CharOf(ds[i])
  {
    seq(|ds|, i requires 0 <= i < |ds| => CharOf(ds[i]))
  }

  lemma DigitsOfChars(ds: seq<int>)
    requires Digits(32, ds)
    ensures AllInAlphabet(Chars(ds)) && DigitsOf(Chars(ds)) == ds
  {
    forall i | 0 <= i < |ds|
      ensures InAlphabet(CharOf(ds[i])) && DigitOf(CharOf(ds[i])) == ds[i]
    {
      CharOfInjective(ds[i]);
    }
  }

  /** The low `n` base-32 digits of `v`. */
  function Quintets(v: nat, n: nat): (r: seq<int>)
    ensures |r| == n && Digits(32, r)
  {
    if n == 0 then [] else Quintets(v / 32, n - 1) + [v % 32]
  }

  lemma {:induction false} QuintetsValue(v: nat, n: nat)
    requires v < Pow(32, n)
    ensures Value(32, Quintets(v, n)) == v
  {
    if n > 0 {
      QuintetsValue(v / 32, n - 1);
      ValueSnoc(32, Quintets(v / 32, n - 1), v % 32);
    }
  }

  // ------------------------------------------------- the 64-bit shift buffer

  /**
   The buffer holds `pending` bits still to be written: the low ones of `v`,
   everything read so far; `w`, what was written, is the rest of it.
   */
  ghost predicate Holds(v: int, w: int, buffer: nat, pending: nat)
    decreases pending
  {
    if pending == 0 then v == w
    else v % 2 == buffer % 2 && Holds(v / 2, w, buffer / 2, pending - 1)
  }

  lemma {:induction false} PowPositive(n: nat)
    ensures Pow(2, n) >= 1
  {
    if n > 0 { PowPositive(n - 1); }
  }

  /** One more bit behind both the number and the buffer. */
  lemma AbsorbBit(v: int, w: int, buffer: nat, pending: nat, v': int, buffer': nat)
    requires Holds(v, w, buffer, pending)
    requires v' / 2 == v && buffer' / 2 == buffer && v' % 2 == buffer' % 2
    ensures Holds(v', w, buffer', pending + 1)
  {
  }

  lemma LowestBit(v: int, w: int, buffer: nat, pending: nat)
    requires Holds(v, w, buffer, pending) && pending > 0
    ensures v % 2 == buffer % 2 && Holds(v / 2, w, buffer / 2, pending - 1)
  {
  }

  lemma {:induction false} AbsorbBits(v: int, w: int, buffer: nat, pending: nat, width: nat, x: nat)
    requires Holds(v, w, buffer, pending) && x < Pow(2, width)
    ensures Holds(v * Pow(2, width) + x, w, buffer * Pow(2, width) + x, pending + width)
    decreases width
  {
    hide Holds;
    if width > 0 {
      var p := Pow(2, width - 1);
      AbsorbBits(v, w, buffer, pending, width - 1, x / 2);
      Twice(v, p, x);
      Twice(buffer, p, x);
      AbsorbBit(v * p + x / 2, w, buffer * p + x / 2, pending + (width - 1), v * (p * 2) + x, buffer * (p * 2) + x);
    } else {
      MulOne(v);
      MulOne(buffer);
    }
  }

  lemma MulOne(v: int)
    ensures v * Pow(2, 0) == v
  {
  }

  lemma Twice(v: int, p: nat, x: nat)
    ensures (v * (p * 2) + x) / 2 == v * p + x / 2 && (v * (p * 2) + x) % 2 == x % 2
  {
    MulAssoc(v, p, 2);
    Halves(v * p, x);
  }

  lemma Halves(k: int, x: nat)
    ensures (k * 2 + x) / 2 == k + x / 2 && (k * 2 + x) % 2 == x % 2
  {
  }

  /** Dropping everything above the low `size` bits leaves the pending ones alone. */
  lemma {:induction false} Truncate(v: int, w: int, buffer: nat, pending: nat, size: nat)
    requires Holds(v, w, buffer, pending) && pending <= size
    ensures Pow(2, size) > 0 && Holds(v, w, buffer % Pow(2, size), pending)
    decreases size
  {
    PowPositive(size);
    if pending > 0 {
      var p := Pow(2, size - 1);
      LowestBit(v, w, buffer, pending);
      Truncate(v / 2, w, buffer / 2, pending - 1, size - 1);
      ModDouble(buffer, p);
      Halves((buffer / 2) % p, buffer % 2);
      hide Holds;
      AbsorbBit(v / 2, w, (buffer / 2) % p, pending - 1, v, buffer % (p * 2));
    }
  }

  lemma ModDouble(n: nat, p: nat)
    requires p > 0
    ensures n % (p * 2) == (n / 2) % p * 2 + n % 2
  {
    var q, r := (n / 2) / p, (n / 2) % p;
    DivModSum(n / 2, p);
    assert n == (q * p + r) * 2 + n % 2;
    assert (q * p + r) * 2 == q * (p * 2) + r * 2;
    DivModUnique(n, p * 2, q, r * 2 + n % 2);
  }

  /** With nothing but the pending bits to write, they complete the number. */
  lemma {:induction false} Drain(v: int, w: int, buffer: nat, pending: nat)
    requires Holds(v, w, buffer, pending)
    ensures Pow(2, pending) > 0 && v == w * Pow(2, pending) + buffer % Pow(2, pending)
    decreases pending
  {
    PowPositive(pending);
    if pending > 0 {
      var p := Pow(2, pending - 1);
      Drain(v / 2, w, buffer / 2, pending - 1);
      ModDouble(buffer, p);
      assert v == v / 2 * 2 + v % 2;
      assert (w * p) * 2 == w * (p * 2);
    }
  }

  /** The low `width` bits of `n` behind `w`. */
  function Join(w: int, n: nat, width: nat): int {
    PowPositive(width);
    w * Pow(2, width) + n % Pow(2, width)
  }

  lemma ShrHalf(n: nat, k: nat)
    requires k > 0
    ensures Shr(n / 2, k - 1) == Shr(n, k)
  {
    PowPositive(k - 1);
    DivDiv(n, Pow(2, k - 1));
  }

  /** Writing the top `width` of the pending bits. */
  lemma {:induction false} EmitBits(v: int, w: int, buffer: nat, pending: nat, width: nat)
    requires Holds(v, w, buffer, pending + width)
    ensures Holds(v, Join(w, Shr(buffer, pending), width), buffer, pending)
    decreases pending
  {
    if pending == 0 {
      Drain(v, w, buffer, width);
      assert Shr(buffer, 0) == buffer;
    } else {
      hide Holds, Shr, Join;
      LowestBit(v, w, buffer, pending + width);
      EmitBits(v / 2, w, buffer / 2, pending - 1, width);
      ShrHalf(buffer, pending);
      AbsorbBit(v / 2, Join(w, Shr(buffer, pending), width), buffer / 2, pending - 1, v, buffer);
    }
  }

  lemma DivDiv(n: nat, p: nat)
    requires p > 0
    ensures (n / 2) / p == n / (p * 2)
  {
    var q, r := (n / 2) / p, (n / 2) % p;
    DivModSum(n / 2, p);
    assert (q * p + r) * 2 == q * (p * 2) + r * 2;
    DivModUnique(n, p * 2, q, r * 2 + n % 2);
  }

  lemma Pow8()
    ensures Pow(2, 5) == 32 && Pow(2, 8) == 256
  {
  }

  lemma Powers()
    ensures Pow(2, 5) == 32 && Pow(2, 8) == 256 && Pow(2, 64) == TWO64
  {
    Pow8();
    hide Pow;
    PowAdd(2, 8, 8);
    PowAdd(2, 16, 16);
    PowAdd(2, 32, 32);
  }

  /** `buffer = (buffer << 8) | x` */
  lemma AbsorbByte(v: int, w: int, buffer: nat, pending: nat, x: byte)
    requires Holds(v, w, buffer, pending) && pending <= 56
    ensures Holds(v * 256 + x, w, (buffer * 256 + x) % TWO64, pending + 8)
  {
    Powers();
    hide Pow, Holds;
    AbsorbBits(v, w, buffer, pending, 8, x);
    Truncate(v * 256 + x, w, buffer * 256 + x, pending + 8, 64);
  }

  /** `buffer = (buffer << 5) | x` */
  lemma AbsorbQuintet(v: int, w: int, buffer: nat, pending: nat, x: nat)
    requires Holds(v, w, buffer, pending) && pending <= 59 && x < 32
    ensures Holds(v * 32 + x, w, (buffer * 32 + x) % TWO64, pending + 5)
  {
    Powers();
    hide Pow, Holds;
    AbsorbBits(v, w, buffer, pending, 5, x);
    Truncate(v * 32 + x, w, buffer * 32 + x, pending + 5, 64);
  }

  /** `buffer >> n` */
  function Shr(buffer: nat, n: nat): (r: nat) {
    PowPositive(n);
    buffer / Pow(2, n)
  }

  /** `buffer << n`, in 64 bits */
  function Shl(buffer: nat, n: nat): nat {
    buffer * Pow(2, n) % TWO64
  }

  lemma EmitQuintet(v: int, w: int, buffer: nat, pending: nat)
    requires Holds(v, w, buffer, pending + 5)
    ensures Holds(v, w * 32 + Shr(buffer, pending) % 32, buffer, pending)
  {
    Powers();
    hide Pow, Holds, Shr;
    EmitBits(v, w, buffer, pending, 5);
  }

  lemma EmitByte(v: int, w: int, buffer: nat, pending: nat)
    requires Holds(v, w, buffer, pending + 8)
    ensures Holds(v, w * 256 + Shr(buffer, pending) % 256, buffer, pending)
  {
    Powers();
    hide Pow, Holds, Shr;
    EmitBits(v, w, buffer, pending, 8);
  }

  // ----------------------------------------------------------------- encoder

  /** The number of characters for `n` bytes: the bits, rounded up to quintets. */
  function EncodedLen(n: nat): nat {
    (8 * n + 4) / 5
  }

  /** What an encoding is: the bits of the data, zero-extended to whole quintets. */
  function Encoding(data: seq<byte>): (s: string)
    ensures |s| == EncodedLen(|data|)
  {
    var n := EncodedLen(|data|);
    ValueBounds(256, data);
    Chars(Quintets(Value(256, data) * Pow(2, 5 * n - 8 * |data|), n))
  }

  /** `base32_encode_lower` */
  method EncodeLower(data: seq<byte>) returns (out: string)
    ensures out == Encoding(data)
  {
    HoldsNothing();
    assert Value(256, []) == 0;
    hide Holds, Value, Pow, Encoding, CharOf;
    out := "";
    ghost var ds: seq<int>, v: int := [], 0;
    var buffer: nat := 0;
    var bits: nat := 0;
    for i := 0 to |data|
      invariant bits < 5 && 8 * i == 5 * |ds| + bits
      invariant Digits(32, ds) && out == Chars(ds)
      invariant v == Value(256, data[..i]) && Holds(v, Value(32, ds), buffer, bits)
    {
      AbsorbByte(v, Value(32, ds), buffer, bits, data[i]);
      buffer := (buffer * 256 + data[i]) % TWO64;
      bits := bits + 8;
      v := v * 256 + data[i];
      out, bits, ds := WriteQuintets(out, buffer, bits, v, ds);
      assert data[..i + 1] == data[..i] + [data[i]];
      ValueSnoc(256, data[..i], data[i]);
    }
    assert data[..|data|] == data;
    out, ds := WriteLast(out, buffer, bits, v, ds);
    MulOne(v);
    EncodingUnique(data, ds, if bits == 0 then 0 else 5 - bits);
  }

  /** The inner loop: every whole quintet in the buffer. */
  method WriteQuintets(out0: string, buffer: nat, bits0: nat, ghost v: int, ghost ds0: seq<int>)
    returns (out: string, bits: nat, ghost ds: seq<int>)
    requires Digits(32, ds0) && out0 == Chars(ds0) && Holds(v, Value(32, ds0), buffer, bits0)
    ensures Digits(32, ds) && out == Chars(ds) && Holds(v, Value(32, ds), buffer, bits)
    ensures bits < 5 && 5 * |ds| + bits == 5 * |ds0| + bits0
  {
    out, bits, ds := out0, bits0, ds0;
    while bits >= 5
      invariant 5 * |ds| + bits == 5 * |ds0| + bits0
      invariant Digits(32, ds) && out == Chars(ds)
      invariant Holds(v, Value(32, ds), buffer, bits)
    {
      bits := bits - 5;
      EmitQuintet(v, Value(32, ds), buffer, bits);
      var d := Shr(buffer, bits) % 32;
      ValueSnoc(32, ds, d);
      out := out + [CharOf(d)];
      ds := ds + [d];
    }
  }

  /** The bits left over, if any, in one more character. */
  method WriteLast(out0: string, buffer: nat, bits: nat, ghost v: int, ghost ds0: seq<int>)
    returns (out: string, ghost ds: seq<int>)
    requires bits < 5 && Digits(32, ds0) && out0 == Chars(ds0) && Holds(v, Value(32, ds0), buffer, bits)
    ensures Digits(32, ds) && out == Chars(ds)
    ensures bits == 0 ==> |ds| == |ds0| && Value(32, ds) == v
    ensures bits > 0 ==> |ds| == |ds0| + 1 && Value(32, ds) == v * Pow(2, 5 - bits)
  {
    out, ds := out0, ds0;
    if bits > 0 {
      LastQuintet(v, Value(32, ds), buffer, bits);
      var d := Shl(buffer, 5 - bits) % 32;
      ValueSnoc(32, ds, d);
      out := out + [CharOf(d)];
      ds := ds + [d];
    }
  }

  /** The last quintet in the buffer completes the number. */
  lemma LastBits(v: int, w: int, buffer: nat)
    requires Holds(v, w, buffer, 5)
    ensures w * 32 + buffer % TWO64 % 32 == v
  {
    Powers();
    hide Holds, Pow;
    Truncate(v, w, buffer, 5, 64);
    Drain(v, w, buffer % TWO64, 5);
  }

  /** The final partial quintet is the pending bits, shifted up. */
  lemma LastQuintet(v: int, w: int, buffer: nat, bits: nat)
    requires 0 < bits < 5 && Holds(v, w, buffer, bits)
    ensures w * 32 + Shl(buffer, 5 - bits) % 32 == v * Pow(2, 5 - bits)
  {
    PowPositive(5 - bits);
    hide Holds, Pow;
    AbsorbBits(v, w, buffer, bits, 5 - bits, 0);
    LastBits(v * Pow(2, 5 - bits), w, buffer * Pow(2, 5 - bits));
  }

  lemma Lengths(m: nat, n: nat, extra: nat)
    requires extra < 5 && 5 * n == 8 * m + extra
    ensures n == EncodedLen(m) && 5 * n - 8 * m == extra && 5 * n % 8 == extra && 5 * n / 8 == m
  {
    DivModUnique(5 * n, 8, m, extra);
    DivModUnique(8 * m + 4, 5, n, 4 - extra);
  }

  /** The encoding is the only string of its length with the right value. */
  lemma EncodingUnique(data: seq<byte>, ds: seq<int>, extra: nat)
    requires Digits(32, ds) && extra < 5 && 5 * |ds| == 8 * |data| + extra
    requires Value(32, ds) == Value(256, data) * Pow(2, extra)
    ensures Chars(ds) == Encoding(data)
  {
    Lengths(|data|, |ds|, extra);
    ValueBounds(32, ds);
    QuintetsValue(Value(32, ds), |ds|);
    ValueUnique(32, ds, Quintets(Value(32, ds), |ds|));
  }

  // ----------------------------------------------------------------- decoder

  /** What a text decodes to: its whole bytes; a foreign character empties the result. */
  function Decoding(s: string): seq<byte> {
    if !AllInAlphabet(s) then []
    else
      ValueBounds(32, DigitsOf(s));
      BigEndian(Shr(Value(32, DigitsOf(s)), 5 * |s| % 8), 5 * |s| / 8)
  }

  lemma HoldsNothing()
    ensures Holds(Value(32, []), Value(256, []), 0, 0) && Holds(Value(256, []), Value(32, []), 0, 0)
  {
  }

  lemma Foreign(s: string, i: nat)
    requires i < |s| && !InAlphabet(s[i])
    ensures Decoding(s) == []
  {
  }

  /** `base32_decode_lower` */
  method DecodeLower(s: string) returns (out: seq<byte>)
    ensures out == Decoding(s)
  {
    HoldsNothing();
    hide Holds, Value, Pow, Decoding;
    out := [];
    ghost var ds: seq<int> := [];
    var buffer: nat := 0;
    var bits: nat := 0;
    for i := 0 to |s|
      invariant bits < 8 && 5 * i == 8 * |out| + bits
      invariant |ds| == i && forall k :: 0 <= k < i ==> InAlphabet(s[k]) && ds[k] == DigitOf(s[k])
      invariant Holds(Value(32, ds), Value(256, out), buffer, bits)
    {
      var c := s[i];
      var val: nat;
      if 'a' <= c <= 'z' {
        val := (c - 'a') as int;
      } else if '2' <= c <= '7' {
        val := (c - '2') as int + 26;
      } else {
        Foreign(s, i);
        return [];
      }
      assert InAlphabet(c) && val == DigitOf(c);
      AbsorbQuintet(Value(32, ds), Value(256, out), buffer, bits, val);
      ValueSnoc(32, ds, val);
      ds := ds + [val];
      buffer := (buffer * 32 + val) % TWO64;
      bits := bits + 5;
      if bits >= 8 {
        bits := bits - 8;
        out := WriteByte(out, buffer, bits, Value(32, ds));
      }
    }
    assert ds == DigitsOf(s);
    DecodingUnique(s, out, buffer, bits);
  }

  method WriteByte(out0: seq<byte>, buffer: nat, bits: nat, ghost v: int) returns (out: seq<byte>)
    requires Holds(v, Value(256, out0), buffer, bits + 8)
    ensures |out| == |out0| + 1 && Holds(v, Value(256, out), buffer, bits)
  {
    EmitByte(v, Value(256, out0), buffer, bits);
    var b: byte := Shr(buffer, bits) % 256;
    ValueSnoc(256, out0, b);
    out := out0 + [b];
  }

  lemma DecodingUnique(s: string, out: seq<byte>, buffer: nat, bits: nat)
    requires AllInAlphabet(s) && bits < 8 && 5 * |s| == 8 * |out| + bits
    requires Holds(Value(32, DigitsOf(s)), Value(256, out), buffer, bits)
    ensures out == Decoding(s)
  {
    var v := Value(32, DigitsOf(s));
    Drain(v, Value(256, out), buffer, bits);
    DivModUnique(v, Pow(2, bits), Value(256, out), buffer % Pow(2, bits));
    BigEndianUnique(out);
  }

  // ------------------------------------------------------------- round trips

  lemma {:induction false} PowAdd(b: nat, m: nat, n: nat)
    ensures Pow(b, m + n) == Pow(b, m) * Pow(b, n)
  {
    if n > 0 {
      PowAdd(b, m, n - 1);
      MulAssoc(Pow(b, m), Pow(b, n - 1), b);
    }
  }

  /** `n` digits of `k` bits each hold `k * n` bits. */
  lemma {:induction false} PowPow(k: nat, n: nat, bits: nat)
    requires bits == k * n
    ensures Pow(Pow(2, k), n) == Pow(2, bits)
  {
    if n > 0 {
      Less(k, n);
      PowPow(k, n - 1, bits - k);
      PowAdd(2, bits - k, k);
    }
  }

  lemma Less(k: nat, n: nat)
    requires n > 0
    ensures k * n == k * (n - 1) + k
  {
  }

  lemma BytesFit(data: seq<byte>, n: nat, extra: nat)
    requires 5 * n == 8 * |data| + extra
    ensures 0 <= Value(256, data) * Pow(2, extra) < Pow(32, n)
  {
    ValueBounds(256, data);
    PowPositive(extra);
    Powers();
    hide Pow, Value;
    PowPow(8, |data|, 8 * |data|);
    PowPow(5, n, 5 * n);
    PowAdd(2, 8 * |data|, extra);
    MulLess(Value(256, data), Pow(256, |data|), Pow(2, extra));
    assert Pow(256, |data|) * Pow(2, extra) == Pow(32, n);
  }

  lemma MulLess(a: nat, b: nat, p: nat)
    requires a < b && p > 0
    ensures 0 <= a * p < b * p
  {
  }

  lemma EncodingIs(data: seq<byte>, extra: nat, v: nat)
    requires 5 * EncodedLen(|data|) == 8 * |data| + extra && v == Value(256, data) * Pow(2, extra)
    ensures Encoding(data) == Chars(Quintets(v, EncodedLen(|data|)))
  {
    hide EncodedLen, Value, Pow, Quintets, Chars;
    assert 5 * EncodedLen(|data|) - 8 * |data| == extra;
  }

  /** The digits of an encoding denote the bits of the data, zero-extended. */
  lemma EncodingValue(data: seq<byte>, extra: nat)
    requires extra < 5 && 5 * EncodedLen(|data|) == 8 * |data| + extra
    ensures AllInAlphabet(Encoding(data))
    ensures Value(32, DigitsOf(Encoding(data))) == Value(256, data) * Pow(2, extra)
  {
    hide *;
    var n := EncodedLen(|data|);
    BytesFit(data, n, extra);
    var v: nat := Value(256, data) * Pow(2, extra);
    EncodingIs(data, extra, v);
    QuintetsValue(v, n);
    DigitsOfChars(Quintets(v, n));
  }

  lemma ShrShl(a: nat, n: nat)
    ensures Shr(a * Pow(2, n), n) == a
  {
    PowPositive(n);
    DivModUnique(a * Pow(2, n), Pow(2, n), a, 0);
  }

  /** Decoding an encoding returns the data, for data of any length. */
  lemma DecodeEncode(data: seq<byte>)
    ensures Decoding(Encoding(data)) == data
  {
    var n := EncodedLen(|data|);
    var extra := 5 * n - 8 * |data|;
    Lengths(|data|, n, extra);
    ValueBounds(256, data);
    hide Pow, Value, Encoding, BigEndian, Shr, DigitsOf, AllInAlphabet, EncodedLen;
    EncodingValue(data, extra);
    ShrShl(Value(256, data), extra);
    BigEndianUnique(data);
  }

  /** Encoding a decoded text returns the text, when its bits are whole bytes. */
  lemma EncodeDecode(s: string)
    requires AllInAlphabet(s) && |s| % 8 == 0
    ensures Encoding(Decoding(s)) == s
  {
    var k := |s| / 8;
    Lengths(5 * k, |s|, 0);
    var v := Value(32, DigitsOf(s));
    ValueBounds(32, DigitsOf(s));
    assert Shr(v, 0) == v;
    assert Chars(DigitsOf(s)) == s;
    assert Decoding(s) == BigEndian(v, 5 * k);
    assert Pow(2, 8) == 256 && Pow(2, 5) == 32 && Pow(2, 0) == 1;
    hide *;
    PowPow(8, 5 * k, 40 * k);
    PowPow(5, |s|, 40 * k);
    BigEndianValue(v, 5 * k);
    EncodingUnique(Decoding(s), DigitsOf(s), 0);
  }
}
