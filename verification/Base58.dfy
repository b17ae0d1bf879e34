/**
 Base58 (src/common/base58.c): the in-place long division, the encoder that
 fills a scratch buffer of twice the input length from the right, and the
 decoder that accumulates one big integer and prints it without leading zeros.
 */
module Base58 {
  import opened Numerals

  const ALPHABET: string := "123456789" + "ABCDEFGH" + "JKLMN" + "PQRSTUVWXYZ" + "abcdefghijk" + "mnopqrstuvwxyz"

  /** `ALPHABET[d]`, by ranges of characters; `AlphabetIsCharOf` ties the two together. */
  function CharOf(d: int): char
    requires 0 <= d < 58
  {
    if d < 9 then '1' + d as char
    else if d < 17 then 'A' + (d - 9) as char
    else if d < 22 then 'J' + (d - 17) as char
    else if d < 33 then 'P' + (d - 22) as char
    else if d < 44 then 'a' + (d - 33) as char
    else 'm' + (d - 44) as char
  }

  lemma AlphabetIsCharOf(d: int)
    requires 0 <= d < 58
    ensures |ALPHABET| == 58 && ALPHABET[d] == CharOf(d)
  {
  }

  lemma CharOfInjective(d: int, e: int)
    requires 0 <= d < 58 && 0 <= e < 58 && CharOf(d) == CharOf(e)
    ensures d == e
  {
  }

  function Chars(ds: seq<int>): (s: string)
    requires Digits(58, ds)
    ensures |s| == |ds| && forall i :: 0 <= i < |ds| ==> s[i] == CharOf(ds[i])
  {
    seq(|ds|, i requires 0 <= i < |ds| => CharOf(ds[i]))
  }

  lemma CharsCons(d: int, ds: seq<int>)
    requires 0 <= d < 58 && Digits(58, ds)
    ensures Digits(58, [d] + ds) && Chars([d] + ds) == [CharOf(d)] + Chars(ds)
  {
  }

  function LeadingZeros(bytes: seq<byte>): (n: nat)
    ensures n <= |bytes|
    ensures forall i :: 0 <= i < n ==> bytes[i] == 0
    ensures n < |bytes| ==> bytes[n] != 0
  {
    if |bytes| > 0 && bytes[0] == 0 then 1 + LeadingZeros(bytes[1..]) else 0
  }

  function Ones(n: nat): (s: string)
    ensures |s| == n && forall i :: 0 <= i < n ==> s[i] == '1'
  {
    seq(n, _ => '1')
  }

  /**
   What an encoding is: one `1` per leading zero byte, then the shortest
   base-58 numeral of the big-endian value of the bytes.
   */
  function Encoding(bytes: seq<byte>): string {
    ValueBounds(256, bytes);
    var v := Value(256, bytes);
    ToDigitsValue(58, v);
    Ones(LeadingZeros(bytes)) + Chars(ToDigits(58, v))
  }

  // ---------------------------------------------------------------- encoder

  /** Divides the big-endian number in `number[startAt..]` by 58 in place. */
  method DivMod58(number: array<byte>, startAt: nat) returns (remainder: int)
    requires startAt <= number.Length
    modifies number
    ensures 0 <= remainder < 58
    ensures Value(256, old(number[startAt..])) == Value(256, number[startAt..]) * 58 + remainder
    ensures number[..startAt] == old(number[..startAt])
    ensures startAt < number.Length ==> number[startAt] == old(number[startAt]) / 58
  {
    EmptyValue(256);
    hide Value;
    remainder := 0;
    ghost var was, q: seq<byte> := number[..], [];
    var i := startAt;
    while i < number.Length
      invariant startAt <= i <= number.Length && |q| == i - startAt
      invariant 0 <= remainder < 58
      invariant number[..] == was[..startAt] + q + was[i..]
      invariant Value(256, was[startAt..i]) == Value(256, q) * 58 + remainder
      invariant i == startAt ==> remainder == 0
      invariant i > startAt ==> q[0] == was[startAt] / 58
    {
      assert number[i] == was[i];
      var digit: byte;
      digit, remainder := DivByte(remainder, number[i], was[startAt..i], q);
      OneDivided(was, startAt, q, i, digit);
      ghost var before := number[..];
      number[i] := digit;
      assert number[..] == before[i := digit];
      q := q + [digit];
      i := i + 1;
    }
    assert was[startAt..] == was[startAt..i];
    assert number[startAt..] == q && number[..startAt] == was[..startAt];
  }

  /** One step of the long division: quotient and remainder with one more byte. */
  method DivByte(remainder0: int, x: byte, ghost done: seq<byte>, ghost q: seq<byte>)
    returns (digit: byte, remainder: int)
    requires 0 <= remainder0 < 58 && Value(256, done) == Value(256, q) * 58 + remainder0
    ensures 0 <= remainder < 58 && (remainder0 == 0 ==> digit == x / 58)
    ensures Value(256, done + [x]) == Value(256, q + [digit]) * 58 + remainder
  {
    hide Value;
    var temp := remainder0 * 256 + x;
    digit, remainder := temp / 58, temp % 58;
    ValueSnoc(256, done, x);
    ValueSnoc(256, q, digit);
    DivModSum(temp, 58);
  }

  lemma OneDivided(was: seq<byte>, startAt: nat, q: seq<byte>, i: nat, digit: byte)
    requires startAt <= i < |was| && |q| == i - startAt
    ensures (was[..startAt] + q + was[i..])[i := digit] == was[..startAt] + (q + [digit]) + was[i + 1..]
    ensures was[startAt..i + 1] == was[startAt..i] + [was[i]]
  {
    var front, back := was[..startAt] + q, was[i..];
    assert |front| == i && back[1..] == was[i + 1..];
    assert (front + back)[i := digit] == front + [digit] + back[1..];
    Assoc(was[..startAt], q, [digit]);
  }

  /** `ds` are the remainders, last one first, of dividing `v` down to `w`. */
  ghost predicate Divided(v: int, w: int, ds: seq<int>)
    decreases |ds|
  {
    if |ds| == 0 then v == w else Divided(v, w * 58 + ds[0], ds[1..])
  }

  lemma {:induction false} DividedValue(v: int, w: int, ds: seq<int>)
    requires Divided(v, w, ds)
    ensures v == w * Pow(58, |ds|) + Value(58, ds)
    decreases |ds|
  {
    EmptyValue(58);
    hide Value;
    if |ds| > 0 {
      var d, p := ds[0], Pow(58, |ds| - 1);
      DividedValue(v, w * 58 + d, ds[1..]);
      assert ds == [d] + ds[1..];
      ValueConcat(58, [d], ds[1..]);
      assert Value(58, [d]) == d by { ValueSnoc(58, [], d); assert [] + [d] == [d]; }
      Regroup58(w, d, p);
    }
  }

  lemma Regroup58(w: int, d: int, p: int)
    ensures (w * 58 + d) * p == w * (p * 58) + d * p
  {
  }

  lemma EmptyValue(base: nat)
    ensures Value(base, []) == 0
  {
  }

  /** The divisions still possible at this point of the scratch buffer are enough. */
  ghost predicate Room(work: seq<byte>, zeroCount: nat, startAt: nat, written: nat) {
    zeroCount <= startAt <= |work| &&
    (written <= 2 * (startAt - zeroCount)
     || (written == 2 * (startAt - zeroCount) + 1 && startAt < |work| && work[startAt] <= 4))
  }

  /** One division, and past the leading byte once it is cleared. */
  method NextDigit(work: array<byte>, startAt: nat, ghost v: int, ghost ds: seq<int>, ghost zeroCount: nat)
    returns (mod: int, next: nat)
    requires startAt < work.Length && Room(work[..], zeroCount, startAt, |ds|)
    requires Divided(v, Value(256, work[startAt..]), ds)
    modifies work
    ensures 0 <= mod < 58 && Room(work[..], zeroCount, next, |ds| + 1)
    ensures Divided(v, Value(256, work[next..]), [mod] + ds)
    ensures next == startAt + 1 || (next == startAt && work[next] < old(work[startAt]))
  {
    hide Value, Pow;
    mod := DivMod58(work, startAt);
    assert ([mod] + ds)[1..] == ds;
    next := startAt;
    if work[startAt] == 0 {
      ValueDropZero(256, work[startAt..]);
      assert work[startAt..][1..] == work[startAt + 1..];
      next := startAt + 1;
    }
  }

  /**
   The digit loop: divides `work` down to nothing, writing one character to the
   left for every division. `2 * length` characters are enough because a
   leading byte is cleared by at most two divisions.
   */
  method WriteDigits(work: array<byte>, temp: array<char>, zeroCount: nat) returns (j: nat, ghost ds: seq<int>)
    requires zeroCount <= work.Length && temp.Length == 2 * work.Length
    requires work as object != temp
    modifies work, temp
    ensures 2 * zeroCount <= j <= temp.Length
    ensures |ds| == temp.Length - j && Digits(58, ds) && temp[j..] == Chars(ds)
    ensures Value(58, ds) == Value(256, old(work[zeroCount..]))
  {
    hide CharOf, Chars, Value, Pow, Divided;
    ghost var v := Value(256, work[zeroCount..]);
    DividedStart(v);
    j := temp.Length;
    ds := [];
    var startAt := zeroCount;
    while startAt < work.Length
      invariant Room(work[..], zeroCount, startAt, |ds|)
      invariant |ds| == temp.Length - j && Digits(58, ds)
      invariant temp[j..] == Chars(ds)
      invariant Divided(v, Value(256, work[startAt..]), ds)
      decreases work.Length - startAt, if startAt < work.Length then work[startAt] else 0
    {
      ghost var tail := temp[j..];
      var mod, next := NextDigit(work, startAt, v, ds, zeroCount);
      startAt := next;
      CharsCons(mod, ds);
      j := j - 1;
      temp[j] := CharOf(mod);
      ds := [mod] + ds;
      assert temp[j + 1..] == tail;
      assert temp[j..] == [temp[j]] + tail;
    }
    assert work[work.Length..] == [];
    EmptyValue(256);
    DividedValue(v, 0, ds);
  }

  lemma DividedStart(v: int)
    ensures Divided(v, v, [])
  {
  }

  /**
   `bm_base58_encode`. The empty input has no encoding; every other input has
   exactly the specified one, and no write leaves the scratch buffer.
   */
  method Encode(input: seq<byte>) returns (r: Option<string>)
    ensures r == if |input| == 0 then None else Some(Encoding(input))
  {
    var length := |input|;
    if length == 0 {
      return None;
    }
    var work := new byte[length](i requires 0 <= i < length => input[i]);
    assert work[..] == input;
    var zeroCount := 0;
    while zeroCount < length && work[zeroCount] == 0
      invariant zeroCount <= length
      invariant forall i :: 0 <= i < zeroCount ==> input[i] == 0
    {
      zeroCount := zeroCount + 1;
    }
    assert zeroCount == LeadingZeros(input);
    assert work[zeroCount..] == input[zeroCount..];
    var tempLen := length * 2;
    var temp := new char[tempLen](_ => '\0');
    var j, ds := WriteDigits(work, temp, zeroCount);
    j, ds := SkipOnes(temp, j, ds);
    assert ds == ToDigits(58, Value(256, input)) by {
      LeadingDigitShortest(58, ds);
      ValueSkipZeros(input, zeroCount);
    }
    j := WriteOnes(temp, j, zeroCount);
    r := Some(temp[j..]);
  }

  /** Puts one `1` per leading zero byte in front of the digits. */
  method WriteOnes(temp: array<char>, start: nat, zeroCount: nat) returns (j: nat)
    requires zeroCount <= start <= temp.Length
    modifies temp
    ensures j <= temp.Length && temp[j..] == Ones(zeroCount) + old(temp[start..])
  {
    ghost var digits, front := temp[start..], "";
    j := start;
    var zeros := zeroCount;
    while zeros > 0
      invariant 0 <= zeros <= zeroCount && j == start - (zeroCount - zeros)
      invariant front == Ones(zeroCount - zeros) && temp[start..] == digits
      invariant temp[j..start] == front
    {
      zeros := zeros - 1;
      j := j - 1;
      temp[j] := '1';
      front := ['1'] + front;
    }
    assert temp[j..] == temp[j..start] + temp[start..];
  }

  /** Drops the leading zero digits the last division may have produced. */
  method SkipOnes(temp: array<char>, start: nat, ghost ds0: seq<int>) returns (j: nat, ghost ds: seq<int>)
    requires start <= temp.Length && |ds0| == temp.Length - start
    requires Digits(58, ds0) && temp[start..] == Chars(ds0)
    ensures start <= j <= temp.Length && |ds| == temp.Length - j
    ensures Digits(58, ds) && temp[j..] == Chars(ds)
    ensures Value(58, ds) == Value(58, ds0)
    ensures |ds| > 0 ==> ds[0] != 0
  {
    hide CharOf, Chars, Value, Pow;
    j := start;
    ds := ds0;
    while j < temp.Length && temp[j] == CharOf(0)
      invariant start <= j <= temp.Length && |ds| == temp.Length - j
      invariant Digits(58, ds) && temp[j..] == Chars(ds)
      invariant Value(58, ds) == Value(58, ds0)
    {
      assert temp[j..][0] == CharOf(ds[0]);
      CharOfInjective(ds[0], 0);
      ValueDropZero(58, ds);
      CharsCons(0, ds[1..]);
      assert ds == [0] + ds[1..];
      assert temp[j + 1..] == temp[j..][1..];
      j := j + 1;
      ds := ds[1..];
    }
    assert j < temp.Length ==> temp[j] == temp[j..][0];
  }

  lemma {:induction false} ValueSkipZeros(bytes: seq<byte>, n: nat)
    requires n <= |bytes| && forall i :: 0 <= i < n ==> bytes[i] == 0
    ensures Value(256, bytes) == Value(256, bytes[n..])
  {
    if n > 0 {
      ValueSkipZeros(bytes, n - 1);
      ValueDropZero(256, bytes[n - 1..]);
      assert bytes[n - 1..][1..] == bytes[n..];
    } else {
      assert bytes[0..] == bytes;
    }
  }

  // ---------------------------------------------------------------- decoder

  predicate InAlphabet(c: char) {
    '1' <= c <= '9' || 'A' <= c <= 'H' || 'J' <= c <= 'N' || 'P' <= c <= 'Z' || 'a' <= c <= 'k' || 'm' <= c <= 'z'
  }

  /** The position of a character of the alphabet, `strchr` minus the start. */
  function DigitOf(c: char): (d: int)
    requires InAlphabet(c)
    ensures 0 <= d < 58 && CharOf(d) == c
  {
    if c <= '9' then (c - '1') as int
    else if c <= 'H' then (c - 'A') as int + 9
    else if c <= 'N' then (c - 'J') as int + 17
    else if c <= 'Z' then (c - 'P') as int + 22
    else if c <= 'k' then (c - 'a') as int + 33
    else (c - 'm') as int + 44
  }

  /** `strchr(ALPHABET, c)`: the first position of `c`, or nothing. */
  method Find(c: char) returns (pos: Option<int>)
    ensures pos == if InAlphabet(c) then Some(DigitOf(c)) else None
  {
    var i := 0;
    while i < 58
      invariant 0 <= i <= 58
      invariant InAlphabet(c) ==> i <= DigitOf(c)
    {
      if CharOf(i) == c {
        CharOfInjective(i, DigitOf(c));
        return Some(i);
      }
      i := i + 1;
    }
    pos := None;
  }

  predicate AllInAlphabet(s: string) {
    forall i :: 0 <= i < |s| ==> InAlphabet(s[i])
  }

  function DigitsOf(s: string): (ds: seq<int>)
    requires AllInAlphabet(s)
    ensures |ds| == |s| && Digits(58, ds)
    ensures forall i :: 0 <= i < |s| ==> ds[i] == DigitOf(s[i])
  {
    seq(|s|, i requires 0 <= i < |s| => DigitOf(s[i]))
  }

  function ToBytes(v: nat): (r: seq<byte>) {
    ToDigitsValue(256, v);
    var ds := ToDigits(256, v);
    seq(|ds|, i requires 0 <= i < |ds| => ds[i] as byte)
  }

  lemma ToBytesDigits(v: nat)
    ensures ToBytes(v) == ToDigits(256, v)
  {
    ToDigitsValue(256, v);
  }

  /**
   What a text decodes to: the shortest byte string of the integer the digits
   denote, or nothing for the empty text or a foreign character.
   */
  function Decoding(s: string): Option<seq<byte>> {
    if |s| == 0 || !AllInAlphabet(s) then None
    else ValueBounds(58, DigitsOf(s)); Some(ToBytes(Value(58, DigitsOf(s))))
  }

  /** `bm_base58_decode`: one big integer, multiplied by 58 per character. */
  method Decode(input: string) returns (r: Option<seq<byte>>)
    ensures r == Decoding(input)
  {
    if |input| == 0 {
      return None;
    }
    var value := 0;
    var i := 0;
    while i < |input|
      invariant 0 <= i <= |input|
      invariant AllInAlphabet(input[..i])
      invariant value == Value(58, DigitsOf(input[..i])) && value >= 0
    {
      var pos := Find(input[i]);
      if pos.None? {
        return None;
      }
      assert input[..i + 1] == input[..i] + [input[i]];
      assert DigitsOf(input[..i + 1]) == DigitsOf(input[..i]) + [pos.value];
      ValueSnoc(58, DigitsOf(input[..i]), pos.value);
      value := value * 58 + pos.value;
      i := i + 1;
    }
    assert input[..i] == input;
    r := Some(ToBytes(value));
  }

  // ------------------------------------------------------------- round trips

  lemma CharsRoundTrip(ds: seq<int>)
    requires Digits(58, ds)
    ensures AllInAlphabet(Chars(ds)) && DigitsOf(Chars(ds)) == ds
  {
    forall i | 0 <= i < |ds|
      ensures InAlphabet(CharOf(ds[i])) && DigitOf(CharOf(ds[i])) == ds[i]
    {
      CharOfInjective(DigitOf(CharOf(ds[i])), ds[i]);
    }
  }

  /** Zero digits in front of a numeral print as `1`s and add nothing. */
  lemma ZerosInFront(n: nat, ds: seq<int>)
    requires Digits(58, ds)
    ensures var zs := seq(n, _ => 0) + ds;
            Digits(58, zs) && Chars(zs) == Ones(n) + Chars(ds) && Value(58, zs) == Value(58, ds)
  {
    var zs := seq(n, _ => 0);
    ZerosValue(58, zs);
    ValueConcat(58, zs, ds);
  }

  lemma {:induction false} ZerosValue(base: nat, zs: seq<int>)
    requires forall i :: 0 <= i < |zs| ==> zs[i] == 0
    ensures Value(base, zs) == 0
  {
    if |zs| > 0 {
      ZerosValue(base, zs[..|zs| - 1]);
    }
  }

  /**
   Decoding an encoding returns the bytes without their leading zeros, so the
   two are inverse exactly on inputs that start with a non-zero byte.
   */
  lemma DecodeEncode(bytes: seq<byte>)
    requires |bytes| > 0
    ensures Decoding(Encoding(bytes)) == Some(StripZeros(bytes))
    ensures Decoding(Encoding(bytes)) == Some(bytes) <==> bytes[0] != 0
  {
    ValueBounds(256, bytes);
    ToDigitsValue(58, Value(256, bytes));
    ZerosInFront(LeadingZeros(bytes), ToDigits(58, Value(256, bytes)));
    CharsRoundTrip(seq(LeadingZeros(bytes), _ => 0) + ToDigits(58, Value(256, bytes)));
    ToBytesDigits(Value(256, bytes));
    ToDigitsStrips(256, bytes);
    StripZerosValue(256, bytes);
    assert |Encoding(bytes)| > 0 by {
      if LeadingZeros(bytes) == 0 {
        ValuePositive(256, bytes);
        ToDigitsValue(58, Value(256, bytes));
      }
    }
  }

  /** No two byte strings share an encoding, leading zeros included. */
  lemma EncodingInjective(a: seq<byte>, b: seq<byte>)
    requires Encoding(a) == Encoding(b)
    ensures a == b
  {
    if |a| > 0 && |b| > 0 {
      DecodeEncode(a);
      DecodeEncode(b);
      StripZerosValue(256, a);
      StripZerosValue(256, b);
      LeadingOnes(a);
      LeadingOnes(b);
      assert |a| == |b|;
      assert a == b;
    } else {
      LeadingOnes(a);
      LeadingOnes(b);
      if |a| > 0 { DecodeEncode(a); }
      if |b| > 0 { DecodeEncode(b); }
    }
  }

  /** The `1`s in front of an encoding count the leading zero bytes. */
  lemma LeadingOnes(a: seq<byte>)
    ensures var n := LeadingZeros(a); var s := Encoding(a);
            n <= |s| && (forall i :: 0 <= i < n ==> s[i] == '1') && (n < |s| ==> s[n] != '1')
    ensures LeadingZeros(a) == |a| - |StripZeros(a)|
  {
    StripZerosValue(256, a);
    ValueBounds(256, a);
    ToDigitsValue(58, Value(256, a));
    var ds := ToDigits(58, Value(256, a));
    if |ds| > 0 {
      if CharOf(ds[0]) == '1' { CharOfInjective(ds[0], 0); }
    }
  }

  /** A text without its leading `1`s. */
  function DropOnes(s: string): (r: string)
    ensures |r| <= |s| && (|s| > 0 ==> (|r| < |s| <==> s[0] == '1')) && (|r| == |s| ==> r == s)
  {
    if |s| > 0 && s[0] == '1' then DropOnes(s[1..]) else s
  }

  lemma {:induction false} DropOnesDigits(s: string)
    requires AllInAlphabet(s)
    ensures AllInAlphabet(DropOnes(s)) && DigitsOf(DropOnes(s)) == StripZeros(DigitsOf(s))
  {
    if |s| > 0 {
      assert DigitsOf(s)[1..] == DigitsOf(s[1..]);
      DropOnesDigits(s[1..]);
    }
  }

  lemma CharsBack(s: string)
    requires AllInAlphabet(s)
    ensures Chars(DigitsOf(s)) == s
  {
  }

  /** Encoding a decoded text returns it without its leading `1`s, so the same text exactly when it has none. */
  lemma EncodeDecode(s: string)
    requires Decoding(s).Some?
    ensures Encoding(Decoding(s).value) == DropOnes(s)
    ensures Encoding(Decoding(s).value) == s <==> s[0] != '1'
  {
    var ds := DigitsOf(s);
    ValueBounds(58, ds);
    var v := Value(58, ds);
    ToDigitsValue(256, v);
    ToBytesDigits(v);
    ToDigitsStrips(58, ds);
    StripZerosValue(58, ds);
    DropOnesDigits(s);
    CharsBack(DropOnes(s));
    assert LeadingZeros(ToBytes(v)) == 0;
    assert Ones(0) + Chars(ToDigits(58, v)) == Chars(ToDigits(58, v));
  }

  /** A `1` in front changes nothing for the decoder. */
  lemma DecodeLeadingOne(s: string)
    requires Decoding(s).Some?
    ensures Decoding("1" + s) == Decoding(s)
  {
    var t := "1" + s;
    forall i | 0 <= i < |t|
      ensures InAlphabet(t[i])
    {
      assert i > 0 ==> t[i] == s[i - 1];
    }
    assert DigitsOf(t)[1..] == DigitsOf(s);
    ValueDropZero(58, DigitsOf(t));
  }

  /** Nor does any number of them. */
  lemma {:induction false} DecodeOnes(s: string, k: nat)
    requires Decoding(s).Some?
    ensures Decoding(Ones(k) + s) == Decoding(s)
  {
    hide Decoding;
    if k == 0 {
      assert Ones(0) + s == s;
    } else {
      DecodeOnes(s, k - 1);
      DecodeLeadingOne(Ones(k - 1) + s);
      assert Ones(k) + s == "1" + (Ones(k - 1) + s);
    }
  }

  /** Base 58 takes at most three digits for two bytes. */
  lemma {:induction false} ThreeForTwo(k: nat)
    ensures Pow(256, 2 * k) <= Pow(58, 3 * k)
  {
    if k > 0 {
      ThreeForTwo(k - 1);
      TwoMore(256, 2 * k - 2);
      TwoMore(58, 3 * k - 3);
    }
  }

  lemma TwoMore(b: nat, n: nat)
    ensures Pow(b, n + 2) == Pow(b, n) * b * b && Pow(b, n + 3) == Pow(b, n) * b * b * b
  {
    assert Pow(b, n + 1) == Pow(b, n) * b;
    assert Pow(b, n + 2) == Pow(b, n + 1) * b;
    assert Pow(b, n + 3) == Pow(b, n + 2) * b;
  }

  /** How long an encoding without leading zero bytes can get. */
  lemma EncodingShort(bytes: seq<byte>, k: nat)
    requires |bytes| > 0 && bytes[0] != 0 && |bytes| <= 2 * k
    ensures |Encoding(bytes)| <= 3 * k
  {
    hide Pow, Value, ToDigits;
    ValueBounds(256, bytes);
    PowMono(256, |bytes|, 2 * k);
    ThreeForTwo(k);
    ToDigitsShort(58, Value(256, bytes), 3 * k);
  }
}
