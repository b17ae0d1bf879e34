/**
 The JSON of src/common/json.c: what its parser accepts and what its serializer
 prints, over bytes. `strtod` and the `%.17g` format are parameters.
 */
module Json {
  import opened Numerals

  type Bytes = seq<byte>

  datatype Value =
    | Null
    | Bool(b: bool)
    | Number(d: real)
    | String(s: Bytes)
    | Array(items: seq<Value>)
    | Object(pairs: seq<Pair>)

  datatype Pair = Pair(key: Bytes, value: Value)

  /** The C library's conversions between text and numbers. */
  datatype Libc = Libc(strtod: Bytes -> real, fmt: real -> Bytes)

  const QUOTE: byte := 34
  const COMMA: byte := 44
  const COLON: byte := 58
  const MINUS: byte := 45
  const DOT: byte := 46
  const LBRACKET: byte := 91
  const BACKSLASH: byte := 92
  const RBRACKET: byte := 93
  const LBRACE: byte := 123
  const RBRACE: byte := 125

  const TRUE: Bytes := [116, 114, 117, 101]
  const FALSE: Bytes := [102, 97, 108, 115, 101]
  const NULL: Bytes := [110, 117, 108, 108]

  // -------------------------------------------------------------------- scanning

  predicate IsWs(b: byte) {
    b == 32 || b == 9 || b == 10 || b == 13
  }

  function SkipWs(t: Bytes): (r: Bytes)
    ensures |r| <= |t|
  {
    if |t| > 0 && IsWs(t[0]) then SkipWs(t[1..]) else t
  }

  predicate IsDigit(b: byte) {
    48 <= b <= 57
  }

  function SkipDigits(t: Bytes): (r: Bytes)
    ensures |r| <= |t|
  {
    if |t| > 0 && IsDigit(t[0]) then SkipDigits(t[1..]) else t
  }

  /** At least one digit. */
  function Digits1(t: Bytes): (r: Option<Bytes>)
    ensures r.Some? ==> |r.value| < |t|
  {
    if |t| > 0 && IsDigit(t[0]) then Some(SkipDigits(t[1..])) else None
  }

  predicate StartsWith(t: Bytes, b: byte) {
    |t| > 0 && t[0] == b
  }

  function SkipSign(t: Bytes): (r: Bytes)
    ensures |r| <= |t|
  {
    if StartsWith(t, 43) || StartsWith(t, MINUS) then t[1..] else t
  }

  function Fraction(t: Bytes): (r: Option<Bytes>)
    ensures r.Some? ==> |r.value| <= |t|
  {
    if StartsWith(t, DOT) then Digits1(t[1..]) else Some(t)
  }

  function Exponent(t: Bytes): (r: Option<Bytes>)
    ensures r.Some? ==> |r.value| <= |t|
  {
    if StartsWith(t, 101) || StartsWith(t, 69) then Digits1(SkipSign(t[1..])) else Some(t)
  }

  /** What follows a number token. */
  function AfterNumber(t: Bytes): (r: Option<Bytes>)
    ensures r.Some? ==> |r.value| < |t|
  {
    var whole := Digits1(if StartsWith(t, MINUS) then t[1..] else t);
    if whole.None? then None
    else
      var frac := Fraction(whole.value);
      if frac.None? then None else Exponent(frac.value)
  }

  function Hex(b: byte): int {
    if 48 <= b <= 57 then b as int - 48
    else if 97 <= b <= 102 then b as int - 87
    else if 65 <= b <= 70 then b as int - 55
    else -1
  }

  /** The code point of four hexadecimal digits. */
  function Hex4(t: Bytes): (r: Option<nat>)
    ensures r.Some? ==> |t| >= 4 && r.value < 0x10000
  {
    if |t| < 4 || Hex(t[0]) < 0 || Hex(t[1]) < 0 || Hex(t[2]) < 0 || Hex(t[3]) < 0 then None
    else Some(Hex(t[0]) * 4096 + Hex(t[1]) * 256 + Hex(t[2]) * 16 + Hex(t[3]))
  }

  /** `append_utf8`: no surrogate pairs. */
  function Utf8(cp: nat): Bytes
    requires cp < 0x10000
  {
    if cp < 0x80 then [cp as byte]
    else if cp < 0x800 then [(0xC0 + cp / 64) as byte, (0x80 + cp % 64) as byte]
    else [(0xE0 + cp / 4096) as byte, (0x80 + cp / 64 % 64) as byte, (0x80 + cp % 64) as byte]
  }

  /** The byte a one-letter escape stands for. */
  function Unescape(b: byte): Option<byte> {
    if b == QUOTE || b == BACKSLASH || b == 47 then Some(b)
    else if b == 98 then Some(8)
    else if b == 102 then Some(12)
    else if b == 110 then Some(10)
    else if b == 114 then Some(13)
    else if b == 116 then Some(9)
    else None
  }

  /** One character of a string body: the bytes it adds, and how long its spelling is. */
  function Char(t: Bytes): (r: Option<(Bytes, nat)>)
    requires |t| > 0
    ensures r.Some? ==> 0 < r.value.1 <= |t|
  {
    if t[0] != BACKSLASH then Some(([t[0]], 1))
    else if |t| < 2 then None
    else if Unescape(t[1]).Some? then Some(([Unescape(t[1]).value], 2))
    else if t[1] == 117 && Hex4(t[2..]).Some? then Some((Utf8(Hex4(t[2..]).value), 6))
    else None
  }

  /** A string body up to its closing quote. */
  function Body(t: Bytes): (r: Option<(Bytes, Bytes)>)
    ensures r.Some? ==> |r.value.1| < |t|
    decreases |t|
  {
    if |t| == 0 then None
    else if t[0] == QUOTE then Some(([], t[1..]))
    else
      var c := Char(t);
      if c.None? then None
      else
        var more := Body(t[c.value.1..]);
        if more.None? then None else Some((c.value.0 + more.value.0, more.value.1))
  }

  /** Strings are C strings: they end at the first zero byte. */
  function CString(s: Bytes): (r: Bytes)
    ensures 0 !in r
  {
    if |s| == 0 || s[0] == 0 then [] else [s[0]] + CString(s[1..])
  }

  /** `parse_string_raw` */
  function Text(t: Bytes): (r: Option<(Bytes, Bytes)>)
    ensures r.Some? ==> |r.value.1| < |t| && 0 !in r.value.0
  {
    if !StartsWith(t, QUOTE) then None
    else
      var body := Body(t[1..]);
      if body.None? then None else Some((CString(body.value.0), body.value.1))
  }

  // --------------------------------------------------------------------- parsing

  function Literal(t: Bytes, word: Bytes, v: Value): (r: Option<(Value, Bytes)>)
    requires |word| > 0
    ensures r.Some? ==> |r.value.1| < |t|
  {
    if word <= t then Some((v, t[|word|..])) else None
  }

  /** `parse_value`: the value at the front, and the rest. */
  function ParseValue(lib: Libc, text: Bytes): (r: Option<(Value, Bytes)>)
    ensures r.Some? ==> |r.value.1| < |text|
    decreases |text|, 0
  {
    var t := SkipWs(text);
    if |t| == 0 then None
    else if t[0] == QUOTE then
      var s := Text(t);
      if s.None? then None else Some((String(s.value.0), s.value.1))
    else if t[0] == LBRACKET then
      if StartsWith(SkipWs(t[1..]), RBRACKET) then Some((Array([]), SkipWs(t[1..])[1..]))
      else
        var items := ParseItems(lib, t[1..]);
        if items.None? then None else Some((Array(items.value.0), items.value.1))
    else if t[0] == LBRACE then
      if StartsWith(SkipWs(t[1..]), RBRACE) then Some((Object([]), SkipWs(t[1..])[1..]))
      else
        var pairs := ParsePairs(lib, t[1..]);
        if pairs.None? then None else Some((Object(pairs.value.0), pairs.value.1))
    else if t[0] == 116 then Literal(t, TRUE, Bool(true))
    else if t[0] == 102 then Literal(t, FALSE, Bool(false))
    else if t[0] == 110 then Literal(t, NULL, Null)
    else
      var rest := AfterNumber(t);
      if rest.None? then None else Some((Number(lib.strtod(t[..|t| - |rest.value|])), rest.value))
  }

  /** The items of an array up to its closing bracket. */
  function ParseItems(lib: Libc, text: Bytes): (r: Option<(seq<Value>, Bytes)>)
    ensures r.Some? ==> |r.value.1| < |text|
    decreases |text|, 1
  {
    var item := ParseValue(lib, SkipWs(text));
    if item.None? then None
    else
      var t := SkipWs(item.value.1);
      if StartsWith(t, COMMA) then
        var more := ParseItems(lib, t[1..]);
        if more.None? then None else Some(([item.value.0] + more.value.0, more.value.1))
      else if StartsWith(t, RBRACKET) then Some(([item.value.0], t[1..]))
      else None
  }

  /** One member: key, colon, value. */
  function ParsePair(lib: Libc, text: Bytes): (r: Option<(Pair, Bytes)>)
    ensures r.Some? ==> |r.value.1| < |text|
    decreases |text|, 1
  {
    var key := Text(SkipWs(text));
    if key.None? || !StartsWith(SkipWs(key.value.1), COLON) then None
    else
      var value := ParseValue(lib, SkipWs(SkipWs(key.value.1)[1..]));
      if value.None? then None else Some((Pair(key.value.0, value.value.0), value.value.1))
  }

  function ParsePairs(lib: Libc, text: Bytes): (r: Option<(seq<Pair>, Bytes)>)
    ensures r.Some? ==> |r.value.1| < |text|
    decreases |text|, 2
  {
    var pair := ParsePair(lib, text);
    if pair.None? then None
    else
      var t := SkipWs(pair.value.1);
      if StartsWith(t, COMMA) then
        var more := ParsePairs(lib, t[1..]);
        if more.None? then None else Some(([pair.value.0] + more.value.0, more.value.1))
      else if StartsWith(t, RBRACE) then Some(([pair.value.0], t[1..]))
      else None
  }

  /** `bm_json_parse`: nothing but white space may follow. */
  function Parse(lib: Libc, text: Bytes): Option<Value> {
    var r := ParseValue(lib, text);
    if r.None? || SkipWs(r.value.1) != [] then None else Some(r.value.0)
  }

  // -------------------------------------------------------------------- printing

  function HexDigit(n: nat): byte
    requires n < 16
  {
    if n < 10 then (48 + n) as byte else (87 + n) as byte
  }

  function Escape(b: byte): (r: Bytes)
    ensures |r| > 0
  {
    if b == QUOTE then [BACKSLASH, QUOTE]
    else if b == BACKSLASH then [BACKSLASH, BACKSLASH]
    else if b == 10 then [BACKSLASH, 110]
    else if b == 13 then [BACKSLASH, 114]
    else if b == 9 then [BACKSLASH, 116]
    else if b < 32 then [BACKSLASH, 117, 48, 48, HexDigit(b as nat / 16), HexDigit(b as nat % 16)]
    else [b]
  }

  function Escaped(s: Bytes): Bytes {
    if |s| == 0 then [] else Escape(s[0]) + Escaped(s[1..])
  }

  function Quoted(s: Bytes): Bytes {
    [QUOTE] + Escaped(s) + [QUOTE]
  }

  /** Decimal digits of a natural number. */
  function Decimal(n: nat): (r: Bytes)
    ensures |r| > 0 && forall i :: 0 <= i < |r| ==> IsDigit(r[i])
  {
    if n < 10 then [(48 + n) as byte] else Decimal(n / 10) + [(48 + n % 10) as byte]
  }

  function Signed(n: int): Bytes {
    if n < 0 then [MINUS] + Decimal(-n) else Decimal(n)
  }

  /** Whole numbers in the range of `long long` print without a point; the rest is left to the C library. */
  function PrintNumber(lib: Libc, d: real): Bytes {
    if d == d.Floor as real && -0x8000_0000_0000_0000 <= d.Floor < 0x8000_0000_0000_0000 then Signed(d.Floor)
    else lib.fmt(d)
  }

  /** `serialize_value` */
  function Print(lib: Libc, v: Value): Bytes
    decreases v
  {
    match v
    case Null => NULL
    case Bool(b) => if b then TRUE else FALSE
    case Number(d) => PrintNumber(lib, d)
    case String(s) => Quoted(s)
    case Array(items) => [LBRACKET] + PrintItems(lib, items) + [RBRACKET]
    case Object(pairs) => [LBRACE] + PrintPairs(lib, pairs) + [RBRACE]
  }

  function PrintItems(lib: Libc, items: seq<Value>): Bytes
    decreases items
  {
    if |items| == 0 then []
    else if |items| == 1 then Print(lib, items[0])
    else Print(lib, items[0]) + [COMMA] + PrintItems(lib, items[1..])
  }

  function PrintPair(lib: Libc, p: Pair): Bytes
    decreases p
  {
    Quoted(p.key) + [COLON] + Print(lib, p.value)
  }

  function PrintPairs(lib: Libc, pairs: seq<Pair>): Bytes
    decreases pairs
  {
    if |pairs| == 0 then []
    else if |pairs| == 1 then PrintPair(lib, pairs[0])
    else PrintPair(lib, pairs[0]) + [COMMA] + PrintPairs(lib, pairs[1..])
  }

  // --------------------------------------------------------- strings come back

  lemma HexBack(n: nat)
    requires n < 16
    ensures Hex(HexDigit(n)) == n
  {
  }

  /** The spelling of a byte is read back as that byte. */
  lemma CharBack(b: byte, rest: Bytes)
    ensures Escape(b)[0] != QUOTE && Char(Escape(b) + rest) == Some(([b], |Escape(b)|))
    ensures (Escape(b) + rest)[|Escape(b)|..] == rest
  {
    if b < 32 && Unescape(b).None? {
      HexBack(b / 16);
      HexBack(b % 16);
    }
    var t := Escape(b) + rest;
    if t[0] == BACKSLASH && t[1] == 117 {
      var h := t[2..];
      assert h[0] == 48 && h[1] == 48 && h[2] == HexDigit(b / 16) && h[3] == HexDigit(b % 16);
      HexBack(b / 16);
      HexBack(b % 16);
      assert Hex4(h) == Some(b / 16 * 16 + b % 16);
    }
  }

  lemma {:induction false} BodyBack(s: Bytes, rest: Bytes)
    ensures Body(Escaped(s) + ([QUOTE] + rest)) == Some((s, rest))
  {
    var t := Escaped(s) + ([QUOTE] + rest);
    if |s| == 0 {
      assert t == [QUOTE] + rest && t[1..] == rest;
    } else {
      var more := Escaped(s[1..]) + ([QUOTE] + rest);
      assert t == Escape(s[0]) + more;
      CharBack(s[0], more);
      BodyBack(s[1..], rest);
      assert [s[0]] + s[1..] == s;
      hide Char, Escape, Escaped;
    }
  }

  lemma {:induction false} CStringBack(s: Bytes)
    requires 0 !in s
    ensures CString(s) == s
  {
    if |s| > 0 {
      CStringBack(s[1..]);
    }
  }

  lemma TextBack(s: Bytes, rest: Bytes)
    requires 0 !in s
    ensures Text(Quoted(s) + rest) == Some((s, rest)) && StartsWith(Quoted(s) + rest, QUOTE)
  {
    var t := Quoted(s) + rest;
    assert t == [QUOTE] + (Escaped(s) + ([QUOTE] + rest));
    assert t[1..] == Escaped(s) + ([QUOTE] + rest);
    BodyBack(s, rest);
    CStringBack(s);
  }

  // --------------------------------------------------------- numbers come back

  /** What may follow a value inside a document. */
  predicate Follows(rest: Bytes) {
    |rest| == 0 || rest[0] == COMMA || rest[0] == RBRACKET || rest[0] == RBRACE
  }

  /** A scan that stops before the end of a prefix stops at the same place. */
  lemma {:induction false} DigitsStop(t: Bytes, rest: Bytes)
    requires |SkipDigits(t)| > 0 || Follows(rest)
    ensures SkipDigits(t + rest) == SkipDigits(t) + rest
  {
    if |t| == 0 {
      assert t + rest == rest;
    } else {
      assert (t + rest)[1..] == t[1..] + rest;
      if IsDigit(t[0]) {
        DigitsStop(t[1..], rest);
      }
    }
  }

  lemma Digits1Stop(t: Bytes, rest: Bytes)
    requires Digits1(t).Some? && (|Digits1(t).value| > 0 || Follows(rest))
    ensures Digits1(t + rest) == Some(Digits1(t).value + rest)
  {
    assert (t + rest)[1..] == t[1..] + rest;
    DigitsStop(t[1..], rest);
  }

  lemma SignStop(t: Bytes, rest: Bytes)
    requires |t| > 0
    ensures SkipSign(t + rest) == SkipSign(t) + rest
  {
    assert (t + rest)[1..] == t[1..] + rest;
  }

  /** A complete number token. */
  predicate IsNumber(t: Bytes) {
    AfterNumber(t) == Some([])
  }

  lemma FractionStop(t: Bytes, rest: Bytes)
    requires Fraction(t).Some? && Follows(rest)
    ensures Fraction(t + rest) == Some(Fraction(t).value + rest)
  {
    if StartsWith(t, DOT) {
      assert (t + rest)[1..] == t[1..] + rest;
      Digits1Stop(t[1..], rest);
    } else {
      assert t == [] ==> t + rest == rest;
    }
  }

  lemma ExponentStop(t: Bytes, rest: Bytes)
    requires Exponent(t).Some? && Follows(rest)
    ensures Exponent(t + rest) == Some(Exponent(t).value + rest)
  {
    if StartsWith(t, 101) || StartsWith(t, 69) {
      assert (t + rest)[1..] == t[1..] + rest;
      SignStop(t[1..], rest);
      Digits1Stop(SkipSign(t[1..]), rest);
    } else {
      assert t == [] ==> t + rest == rest;
    }
  }

  lemma NumberStop(t: Bytes, rest: Bytes)
    requires IsNumber(t) && Follows(rest)
    ensures AfterNumber(t + rest) == Some(rest)
  {
    var u := if StartsWith(t, MINUS) then t[1..] else t;
    assert |t| > 0;
    assert (t + rest)[1..] == t[1..] + rest;
    hide Fraction, Exponent, Digits1;
    Digits1Stop(u, rest);
    FractionStop(Digits1(u).value, rest);
    ExponentStop(Fraction(Digits1(u).value).value, rest);
    assert [] + rest == rest;
  }

  lemma {:induction false} DigitsRun(t: Bytes)
    requires forall i :: 0 <= i < |t| ==> IsDigit(t[i])
    ensures SkipDigits(t) == []
  {
    if |t| > 0 {
      DigitsRun(t[1..]);
    }
  }

  lemma DecimalNumber(n: int)
    ensures IsNumber(Signed(n))
  {
    var ds := Decimal(if n < 0 then -n else n);
    DigitsRun(ds[1..]);
    if n < 0 {
      assert Signed(n)[1..] == ds;
    }
  }

  function DigitValues(t: Bytes): seq<int> {
    seq(|t|, i requires 0 <= i < |t| => t[i] as int - 48)
  }

  /** A text of decimal digits, and the number that it denotes. */
  predicate Denotes(t: Bytes, n: nat) {
    && |t| > 0 && (forall i :: 0 <= i < |t| ==> IsDigit(t[i]))
    && Numerals.Value(10, DigitValues(t)) == n
  }

  lemma DenotesSnoc(t: Bytes, n: nat, d: byte)
    requires Denotes(t, n) && IsDigit(d)
    ensures Denotes(t + [d], n * 10 + (d - 48))
  {
    ValueSnoc(10, DigitValues(t), d - 48);
    assert DigitValues(t + [d]) == DigitValues(t) + [d - 48];
  }

  /** The printed digits denote the number, and do not start with a zero unless it is the only one. */
  lemma {:induction false} DecimalExact(n: nat)
    ensures Denotes(Decimal(n), n) && (Decimal(n)[0] == 48 <==> n == 0) && (n == 0 ==> |Decimal(n)| == 1)
  {
    if n < 10 {
      ValueSnoc(10, [], n as int);
      assert DigitValues(Decimal(n)) == [] + [n];
      assert Numerals.Value(10, []) == 0;
    } else {
      DecimalExact(n / 10);
      DenotesSnoc(Decimal(n / 10), n / 10, (48 + n % 10) as byte);
      DivModSum(n, 10);
    }
  }

  /** `strtod` is exact on the texts of whole numbers below 2^53 in magnitude. */
  ghost predicate Exact(lib: Libc) {
    forall t: Bytes, n: nat :: Denotes(t, n) && n < 0x20_0000_0000_0000 ==>
      lib.strtod(t) == n as real && lib.strtod([MINUS] + t) == -(n as real)
  }

  lemma SignedReads(lib: Libc, n: int)
    requires Exact(lib) && -0x20_0000_0000_0000 < n < 0x20_0000_0000_0000
    ensures lib.strtod(Signed(n)) == n as real
  {
    DecimalExact(if n < 0 then -n else n);
  }

  /** A whole number of 64 bits prints as a minus sign if it is negative and its digits, without leading zeros. */
  lemma WholePrinted(lib: Libc, n: int)
    requires -0x8000_0000_0000_0000 <= n < 0x8000_0000_0000_0000
    ensures var t := PrintNumber(lib, n as real);
            if n < 0 then |t| > 1 && t[0] == MINUS && t[1] != 48 && Denotes(t[1..], -n)
            else Denotes(t, n) && (t[0] == 48 ==> t == [48])
  {
    var ds := Decimal(if n < 0 then -n else n);
    DecimalExact(if n < 0 then -n else n);
    hide Denotes, Decimal;
    assert ([MINUS] + ds)[1..] == ds;
  }

  // ------------------------------------------------------- what a value holds

  /** The numbers of a value, at any depth. */
  function Numbers(v: Value): set<real>
    decreases v
  {
    match v
    case Number(d) => {d}
    case Array(items) => NumbersIn(items)
    case Object(pairs) => NumbersInPairs(pairs)
    case _ => {}
  }

  function NumbersIn(items: seq<Value>): set<real>
    decreases items
  {
    if |items| == 0 then {} else Numbers(items[0]) + NumbersIn(items[1..])
  }

  function NumbersInPairs(pairs: seq<Pair>): set<real>
    decreases pairs
  {
    if |pairs| == 0 then {} else Numbers(pairs[0].value) + NumbersInPairs(pairs[1..])
  }

  /** The strings and keys of a value, at any depth. */
  function Texts(v: Value): set<Bytes>
    decreases v
  {
    match v
    case String(s) => {s}
    case Array(items) => TextsIn(items)
    case Object(pairs) => TextsInPairs(pairs)
    case _ => {}
  }

  function TextsIn(items: seq<Value>): set<Bytes>
    decreases items
  {
    if |items| == 0 then {} else Texts(items[0]) + TextsIn(items[1..])
  }

  function TextsInPairs(pairs: seq<Pair>): set<Bytes>
    decreases pairs
  {
    if |pairs| == 0 then {} else {pairs[0].key} + Texts(pairs[0].value) + TextsInPairs(pairs[1..])
  }

  /** What every C string is. */
  predicate ZeroFree(texts: set<Bytes>) {
    forall s :: s in texts ==> 0 !in s
  }

  /** Every number prints as a complete number token. */
  predicate Printed(lib: Libc, numbers: set<real>) {
    forall d :: d in numbers ==> IsNumber(PrintNumber(lib, d))
  }

  /** The C library reads every number back from what was printed for it. */
  predicate ReadBack(lib: Libc, numbers: set<real>) {
    forall d :: d in numbers ==> lib.strtod(PrintNumber(lib, d)) == d
  }

  /** Every number is whole and below 2^53 in magnitude. */
  predicate Whole(numbers: set<real>) {
    forall d :: d in numbers ==> d == d.Floor as real && -0x20_0000_0000_0000 < d.Floor < 0x20_0000_0000_0000
  }

  lemma WholeReadBack(lib: Libc, numbers: set<real>)
    requires Exact(lib) && Whole(numbers)
    ensures Printed(lib, numbers) && ReadBack(lib, numbers)
  {
    forall d | d in numbers
      ensures IsNumber(PrintNumber(lib, d)) && lib.strtod(PrintNumber(lib, d)) == d
    {
      DecimalNumber(d.Floor);
      SignedReads(lib, d.Floor);
    }
  }

  // ---------------------------------------------------------- values come back

  /** The value with each number replaced by what the C library reads from its printed form. */
  function Reread(lib: Libc, v: Value): Value
    decreases v
  {
    match v
    case Number(d) => Number(lib.strtod(PrintNumber(lib, d)))
    case Array(items) => Array(RereadItems(lib, items))
    case Object(pairs) => Object(RereadPairs(lib, pairs))
    case _ => v
  }

  function RereadItems(lib: Libc, items: seq<Value>): seq<Value>
    decreases items
  {
    if |items| == 0 then [] else [Reread(lib, items[0])] + RereadItems(lib, items[1..])
  }

  function RereadPair(lib: Libc, p: Pair): Pair
    decreases p
  {
    Pair(p.key, Reread(lib, p.value))
  }

  function RereadPairs(lib: Libc, pairs: seq<Pair>): seq<Pair>
    decreases pairs
  {
    if |pairs| == 0 then [] else [RereadPair(lib, pairs[0])] + RereadPairs(lib, pairs[1..])
  }

  lemma {:induction false} RereadSame(lib: Libc, v: Value)
    ensures Reread(lib, v) == v <==> ReadBack(lib, Numbers(v))
    decreases v
  {
    hide PrintNumber;
    match v
    case Array(items) => RereadItemsSame(lib, items);
    case Object(pairs) => RereadPairsSame(lib, pairs);
    case _ =>
  }

  lemma {:induction false} RereadItemsSame(lib: Libc, items: seq<Value>)
    ensures RereadItems(lib, items) == items <==> ReadBack(lib, NumbersIn(items))
    decreases items
  {
    hide PrintNumber, Reread;
    if |items| > 0 {
      RereadSame(lib, items[0]);
      RereadItemsSame(lib, items[1..]);
      HeadTail(Reread(lib, items[0]), RereadItems(lib, items[1..]), items);
    }
  }

  lemma {:induction false} RereadPairsSame(lib: Libc, pairs: seq<Pair>)
    ensures RereadPairs(lib, pairs) == pairs <==> ReadBack(lib, NumbersInPairs(pairs))
    decreases pairs
  {
    hide PrintNumber, Reread;
    if |pairs| > 0 {
      RereadSame(lib, pairs[0].value);
      RereadPairsSame(lib, pairs[1..]);
      HeadTail(RereadPair(lib, pairs[0]), RereadPairs(lib, pairs[1..]), pairs);
    }
  }

  lemma HeadTail<T>(head: T, tail: seq<T>, all: seq<T>)
    requires |all| > 0
    ensures [head] + tail == all <==> head == all[0] && tail == all[1..]
  {
    assert ([head] + tail)[1..] == tail;
    assert [all[0]] + all[1..] == all;
  }

  /** The first byte of printed text is neither white space nor a closing bracket. */
  predicate Opens(t: Bytes) {
    |t| > 0 && !IsWs(t[0]) && t[0] != RBRACKET && t[0] != RBRACE
  }

  lemma NumberOpens(t: Bytes)
    requires IsNumber(t)
    ensures Opens(t) && (t[0] == MINUS || IsDigit(t[0]))
  {
  }

  lemma PrintOpens(lib: Libc, v: Value)
    requires Printed(lib, Numbers(v))
    ensures Opens(Print(lib, v))
  {
    if v.Number? {
      NumberOpens(PrintNumber(lib, v.d));
    }
    hide PrintNumber, PrintItems, PrintPairs, Escaped;
  }

  lemma OpensSkip(t: Bytes, rest: Bytes)
    requires Opens(t)
    ensures SkipWs(t + rest) == t + rest && Opens(t + rest) && (t + rest)[0] == t[0]
  {
  }

  lemma SkipStop(b: byte, rest: Bytes)
    requires !IsWs(b)
    ensures SkipWs([b] + rest) == [b] + rest && StartsWith([b] + rest, b) && ([b] + rest)[1..] == rest
  {
  }

  lemma LiteralBack(word: Bytes, v: Value, rest: Bytes)
    requires |word| > 0
    ensures Literal(word + rest, word, v) == Some((v, rest))
  {
  }

  lemma NumberBack(lib: Libc, d: real, rest: Bytes)
    requires IsNumber(PrintNumber(lib, d)) && Follows(rest)
    ensures ParseValue(lib, PrintNumber(lib, d) + rest) == Some((Reread(lib, Number(d)), rest))
  {
    var t := PrintNumber(lib, d);
    NumberOpens(t);
    OpensSkip(t, rest);
    NumberStop(t, rest);
    assert (t + rest)[..|t + rest| - |rest|] == t;
    hide AfterNumber, SkipWs, PrintNumber;
  }

  lemma StringBack(lib: Libc, s: Bytes, rest: Bytes)
    requires 0 !in s
    ensures ParseValue(lib, Quoted(s) + rest) == Some((String(s), rest))
  {
    TextBack(s, rest);
    OpensSkip(Quoted(s), rest);
    hide Text, Quoted, SkipWs;
  }

  /**
   Printing a value and parsing the text gives back the value, up to what the C library
   makes of its numbers, and leaves exactly what followed.
   */
  lemma {:induction false} ValueBack(lib: Libc, v: Value, rest: Bytes)
    requires ZeroFree(Texts(v)) && Printed(lib, Numbers(v)) && Follows(rest)
    ensures ParseValue(lib, Print(lib, v) + rest) == Some((Reread(lib, v), rest))
    decreases v
  {
    hide SkipWs, AfterNumber, Text, Quoted, PrintNumber, ParseItems, ParsePairs, Follows;
    match v
    case Null =>
      LiteralBack(NULL, v, rest);
      OpensSkip(NULL, rest);
    case Bool(b) =>
      LiteralBack(TRUE, Bool(true), rest);
      LiteralBack(FALSE, Bool(false), rest);
      OpensSkip(if b then TRUE else FALSE, rest);
    case Number(d) => NumberBack(lib, d, rest);
    case String(s) => StringBack(lib, s, rest);
    case Array(items) => ArrayBack(lib, items, rest);
    case Object(pairs) => ObjectBack(lib, pairs, rest);
  }

  lemma PrintNone(lib: Libc)
    ensures PrintItems(lib, []) == [] && PrintPairs(lib, []) == []
  {
  }

  lemma ArrayOpened(lib: Libc, inner: Bytes)
    requires !StartsWith(SkipWs(inner), RBRACKET) && ParseItems(lib, inner).Some?
    ensures ParseValue(lib, [LBRACKET] + inner) ==
            Some((Array(ParseItems(lib, inner).value.0), ParseItems(lib, inner).value.1))
  {
    SkipStop(LBRACKET, inner);
    hide SkipWs, ParseItems, AfterNumber, Text;
  }

  lemma ArrayEmpty(lib: Libc, rest: Bytes)
    ensures ParseValue(lib, [LBRACKET] + ([RBRACKET] + rest)) == Some((Array([]), rest))
  {
    SkipStop(LBRACKET, [RBRACKET] + rest);
    SkipStop(RBRACKET, rest);
    hide SkipWs, ParseItems, AfterNumber, Text;
  }

  lemma {:induction false} ArrayBack(lib: Libc, items: seq<Value>, rest: Bytes)
    requires ZeroFree(TextsIn(items)) && Printed(lib, NumbersIn(items))
    ensures ParseValue(lib, Print(lib, Array(items)) + rest) == Some((Array(RereadItems(lib, items)), rest))
    decreases items, 2
  {
    hide SkipWs, PrintItems, ParseItems, ParseValue, ZeroFree, Printed;
    var inner := PrintItems(lib, items) + ([RBRACKET] + rest);
    assert Print(lib, Array(items)) + rest == [LBRACKET] + inner;
    if |items| == 0 {
      PrintNone(lib);
      assert inner == [RBRACKET] + rest;
      ArrayEmpty(lib, rest);
    } else {
      ItemsOpen(lib, items);
      OpensSkip(PrintItems(lib, items), [RBRACKET] + rest);
      ItemsBack(lib, items, rest);
      ArrayOpened(lib, inner);
    }
  }

  lemma ItemsOpen(lib: Libc, items: seq<Value>)
    requires Printed(lib, NumbersIn(items)) && |items| > 0
    ensures Opens(PrintItems(lib, items))
  {
    PrintOpens(lib, items[0]);
  }

  lemma {:induction false} ItemsBack(lib: Libc, items: seq<Value>, rest: Bytes)
    requires ZeroFree(TextsIn(items)) && Printed(lib, NumbersIn(items)) && |items| > 0
    ensures ParseItems(lib, PrintItems(lib, items) + ([RBRACKET] + rest)) == Some((RereadItems(lib, items), rest))
    decreases items, 1
  {
    var close := [RBRACKET] + rest;
    var first := Print(lib, items[0]);
    PrintOpens(lib, items[0]);
    if |items| == 1 {
      assert RereadItems(lib, items) == [Reread(lib, items[0])];
      OpensSkip(first, close);
      ValueBack(lib, items[0], close);
      SkipStop(RBRACKET, rest);
    } else {
      var more := PrintItems(lib, items[1..]) + close;
      assert PrintItems(lib, items) + close == first + ([COMMA] + more);
      OpensSkip(first, [COMMA] + more);
      ValueBack(lib, items[0], [COMMA] + more);
      SkipStop(COMMA, more);
      ItemsBack(lib, items[1..], rest);
    }
    hide SkipWs, PrintItems, ParseValue, Print;
  }

  lemma PairsOpen(lib: Libc, pairs: seq<Pair>)
    requires |pairs| > 0
    ensures Opens(PrintPairs(lib, pairs))
  {
    hide Print, Escaped;
    assert PrintPair(lib, pairs[0])[0] == QUOTE;
  }

  lemma ObjectOpened(lib: Libc, inner: Bytes)
    requires !StartsWith(SkipWs(inner), RBRACE) && ParsePairs(lib, inner).Some?
    ensures ParseValue(lib, [LBRACE] + inner) ==
            Some((Object(ParsePairs(lib, inner).value.0), ParsePairs(lib, inner).value.1))
  {
    SkipStop(LBRACE, inner);
    hide SkipWs, ParsePairs, AfterNumber, Text;
  }

  lemma ObjectEmpty(lib: Libc, rest: Bytes)
    ensures ParseValue(lib, [LBRACE] + ([RBRACE] + rest)) == Some((Object([]), rest))
  {
    SkipStop(LBRACE, [RBRACE] + rest);
    SkipStop(RBRACE, rest);
    hide SkipWs, ParsePairs, AfterNumber, Text;
  }

  lemma {:induction false} ObjectBack(lib: Libc, pairs: seq<Pair>, rest: Bytes)
    requires ZeroFree(TextsInPairs(pairs)) && Printed(lib, NumbersInPairs(pairs))
    ensures ParseValue(lib, Print(lib, Object(pairs)) + rest) == Some((Object(RereadPairs(lib, pairs)), rest))
    decreases pairs, 2
  {
    hide SkipWs, PrintPairs, ParsePairs, ParseValue, ZeroFree, Printed;
    var inner := PrintPairs(lib, pairs) + ([RBRACE] + rest);
    assert Print(lib, Object(pairs)) + rest == [LBRACE] + inner;
    if |pairs| == 0 {
      PrintNone(lib);
      assert inner == [RBRACE] + rest;
      ObjectEmpty(lib, rest);
    } else {
      PairsOpen(lib, pairs);
      OpensSkip(PrintPairs(lib, pairs), [RBRACE] + rest);
      PairsBack(lib, pairs, rest);
      ObjectOpened(lib, inner);
    }
  }

  lemma {:induction false} PairBack(lib: Libc, p: Pair, rest: Bytes)
    requires 0 !in p.key && ZeroFree(Texts(p.value)) && Printed(lib, Numbers(p.value)) && Follows(rest)
    ensures ParsePair(lib, PrintPair(lib, p) + rest) == Some((RereadPair(lib, p), rest))
    decreases p
  {
    var value := Print(lib, p.value) + rest;
    assert PrintPair(lib, p) + rest == Quoted(p.key) + ([COLON] + value);
    OpensSkip(Quoted(p.key), [COLON] + value);
    TextBack(p.key, [COLON] + value);
    SkipStop(COLON, value);
    PrintOpens(lib, p.value);
    OpensSkip(Print(lib, p.value), rest);
    ValueBack(lib, p.value, rest);
    hide SkipWs, ParseValue, Print, Text, Quoted;
  }

  lemma {:induction false} PairsBack(lib: Libc, pairs: seq<Pair>, rest: Bytes)
    requires ZeroFree(TextsInPairs(pairs)) && Printed(lib, NumbersInPairs(pairs)) && |pairs| > 0
    ensures ParsePairs(lib, PrintPairs(lib, pairs) + ([RBRACE] + rest)) == Some((RereadPairs(lib, pairs), rest))
    decreases pairs, 1
  {
    var close := [RBRACE] + rest;
    var first := PrintPair(lib, pairs[0]);
    if |pairs| == 1 {
      assert RereadPairs(lib, pairs) == [RereadPair(lib, pairs[0])];
      PairBack(lib, pairs[0], close);
      SkipStop(RBRACE, rest);
    } else {
      var more := PrintPairs(lib, pairs[1..]) + close;
      assert PrintPairs(lib, pairs) + close == first + ([COMMA] + more);
      PairBack(lib, pairs[0], [COMMA] + more);
      SkipStop(COMMA, more);
      PairsBack(lib, pairs[1..], rest);
    }
    hide SkipWs, PrintPairs, ParsePair, PrintPair;
  }

  // ------------------------------------------------------------------ theorems

  /** The value comes back exactly when the C library reads each of its numbers back. */
  lemma RoundTrip(lib: Libc, v: Value)
    requires ZeroFree(Texts(v)) && Printed(lib, Numbers(v))
    ensures Parse(lib, Print(lib, v)) == Some(Reread(lib, v))
    ensures Parse(lib, Print(lib, v)) == Some(v) <==> ReadBack(lib, Numbers(v))
  {
    hide ZeroFree, Printed, ReadBack;
    ValueBack(lib, v, []);
    assert Print(lib, v) + [] == Print(lib, v);
    RereadSame(lib, v);
  }

  /**
   For every value with whole numbers below 2^53 and strings free of zero bytes, the
   printed text parses back to the same value, members in order and duplicates kept; and
   inside a document the parser stops exactly where the printed text ends.
   */
  lemma WholeRoundTrip(lib: Libc, v: Value, rest: Bytes)
    requires Exact(lib) && Whole(Numbers(v)) && ZeroFree(Texts(v))
    ensures Parse(lib, Print(lib, v)) == Some(v)
    ensures Follows(rest) ==> ParseValue(lib, Print(lib, v) + rest) == Some((v, rest))
  {
    hide Exact, Parse, ParseValue, Print, Whole, ZeroFree, Printed, ReadBack;
    WholeReadBack(lib, Numbers(v));
    RoundTrip(lib, v);
    RereadSame(lib, v);
    if Follows(rest) {
      ValueBack(lib, v, rest);
    }
  }

  /** Two values that print alike differ at most in numbers the C library does not tell apart. */
  lemma PrintInjective(lib: Libc, v: Value, w: Value)
    requires ZeroFree(Texts(v)) && ZeroFree(Texts(w)) && Printed(lib, Numbers(v)) && Printed(lib, Numbers(w))
    requires Print(lib, v) == Print(lib, w)
    ensures Reread(lib, v) == Reread(lib, w)
    ensures ReadBack(lib, Numbers(v)) && ReadBack(lib, Numbers(w)) ==> v == w
  {
    RoundTrip(lib, v);
    RoundTrip(lib, w);
  }

  /** Whatever the parser accepts has strings free of zero bytes. */
  lemma {:induction false} ParsedClean(lib: Libc, text: Bytes)
    requires ParseValue(lib, text).Some?
    ensures ZeroFree(Texts(ParseValue(lib, text).value.0))
    decreases |text|, 0
  {
    hide Body, AfterNumber;
    var t := SkipWs(text);
    if t[0] == LBRACKET && !StartsWith(SkipWs(t[1..]), RBRACKET) {
      ItemsClean(lib, t[1..]);
    } else if t[0] == LBRACE && !StartsWith(SkipWs(t[1..]), RBRACE) {
      PairsClean(lib, t[1..]);
    }
  }

  lemma {:induction false} ItemsClean(lib: Libc, text: Bytes)
    requires ParseItems(lib, text).Some?
    ensures ZeroFree(TextsIn(ParseItems(lib, text).value.0))
    decreases |text|, 1
  {
    hide ParseValue, SkipWs;
    var item := ParseValue(lib, SkipWs(text));
    ParsedClean(lib, SkipWs(text));
    var t := SkipWs(item.value.1);
    if StartsWith(t, COMMA) {
      var more := ParseItems(lib, t[1..]).value.0;
      assert ([item.value.0] + more)[1..] == more;
      ItemsClean(lib, t[1..]);
    }
  }

  lemma {:induction false} PairsClean(lib: Libc, text: Bytes)
    requires ParsePairs(lib, text).Some?
    ensures ZeroFree(TextsInPairs(ParsePairs(lib, text).value.0))
    decreases |text|, 2
  {
    hide ParseValue, SkipWs, Body;
    var pair := ParsePair(lib, text).value;
    var key := Text(SkipWs(text)).value;
    ParsedClean(lib, SkipWs(SkipWs(key.1)[1..]));
    var t := SkipWs(pair.1);
    if StartsWith(t, COMMA) {
      var more := ParsePairs(lib, t[1..]).value.0;
      assert ([pair.0] + more)[1..] == more;
      PairsClean(lib, t[1..]);
    }
  }

  /**
   Whatever text was accepted, printing the result and parsing it again gives the result
   up to its numbers, and the very same result exactly when the C library reads them back.
   */
  lemma Reparse(lib: Libc, text: Bytes)
    requires Parse(lib, text).Some? && Printed(lib, Numbers(Parse(lib, text).value))
    ensures Parse(lib, Print(lib, Parse(lib, text).value)) == Some(Reread(lib, Parse(lib, text).value))
    ensures Parse(lib, Print(lib, Parse(lib, text).value)) == Parse(lib, text)
            <==> ReadBack(lib, Numbers(Parse(lib, text).value))
  {
    hide Printed, ReadBack;
    ParsedClean(lib, text);
    RoundTrip(lib, Parse(lib, text).value);
  }
}
