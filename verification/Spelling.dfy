/**
 The texts of a JSON value, from the grammar's side: every way of writing it down that
 src/common/json.c accepts, and nothing else. A `Spelled` value fixes one way: the white
 space around each token, the escape of each string byte, the form of each number.
 */
module Spelling {
  import opened Numerals
  import opened Json

  /** A hexadecimal digit in either case. */
  datatype Nibble = Nibble(d: nat, upper: bool)

  /** One piece of a string: a byte as it is, a one-letter escape, or a code point with its UTF-8 bytes. */
  datatype Piece = Plain(b: byte) | Short(letter: byte) | Unicode(hex: seq<Nibble>, utf8: Bytes)

  datatype Sign = NoSign | Plus | Minus
  datatype Exp = NoExp | Exp(upper: bool, sign: Sign, digits: Bytes)

  datatype Spelled =
    | Null
    | Bool(b: bool)
    | Number(negative: bool, whole: Bytes, fraction: Option<Bytes>, exp: Exp)
    | Text(pieces: seq<Piece>)
    | Array(blank: Bytes, items: seq<Item>)
    | Object(blank: Bytes, members: seq<Member>)

  /** An item with the white space on both sides. */
  datatype Item = Item(before: Bytes, value: Spelled, after: Bytes)
  datatype Member = Member(before: Bytes, key: seq<Piece>, beforeColon: Bytes, afterColon: Bytes, value: Spelled,
                           after: Bytes)

  // ------------------------------------------------------------------ what is legal

  /** Space, tab, line feed and carriage return. */
  predicate Blank(w: Bytes) {
    forall i :: 0 <= i < |w| ==> w[i] == 32 || w[i] == 9 || w[i] == 10 || w[i] == 13
  }

  predicate Digits(ds: Bytes) {
    |ds| > 0 && forall i :: 0 <= i < |ds| ==> 48 <= ds[i] <= 57
  }

  /** The bytes of a code point: one, two or three, with their marks and six bits in each that follows. */
  predicate Encodes(cp: int, bytes: Bytes) {
    if |bytes| == 1 then cp < 0x80 && bytes[0] == cp
    else if |bytes| == 2 then
      0x80 <= cp < 0x800 && Follower(bytes[1]) && Low(bytes[0], 0xC0) * 64 + Low(bytes[1], 0x80) == cp
    else
      |bytes| == 3 && 0x800 <= cp && Follower(bytes[1]) && Follower(bytes[2])
      && (Low(bytes[0], 0xE0) * 64 + Low(bytes[1], 0x80)) * 64 + Low(bytes[2], 0x80) == cp
  }

  predicate Follower(b: byte) {
    0x80 <= b < 0xC0
  }

  /** A byte without its mark. */
  function Low(b: byte, mark: int): int {
    b as int - mark
  }

  predicate LegalPiece(p: Piece) {
    match p
    case Plain(b) => b != 34 && b != 92
    case Short(letter) => letter in [34, 92, 47, 98, 102, 110, 114, 116]
    case Unicode(hex, utf8) =>
      && |hex| == 4 && hex[0].d < 16 && hex[1].d < 16 && hex[2].d < 16 && hex[3].d < 16
      && Encodes(((hex[0].d * 16 + hex[1].d) * 16 + hex[2].d) * 16 + hex[3].d, utf8)
  }

  predicate LegalText(pieces: seq<Piece>) {
    forall i :: 0 <= i < |pieces| ==> LegalPiece(pieces[i])
  }

  predicate LegalNumber(whole: Bytes, fraction: Option<Bytes>, exp: Exp) {
    Digits(whole) && (fraction.Some? ==> Digits(fraction.value)) && (exp.Exp? ==> Digits(exp.digits))
  }

  predicate Legal(s: Spelled)
    decreases s
  {
    match s
    case Number(_, whole, fraction, exp) => LegalNumber(whole, fraction, exp)
    case Text(pieces) => LegalText(pieces)
    case Array(blank, items) => Blank(blank) && LegalItems(items)
    case Object(blank, members) => Blank(blank) && LegalMembers(members)
    case _ => true
  }

  predicate LegalItems(items: seq<Item>)
    decreases items
  {
    |items| > 0 ==>
      && Blank(items[0].before) && Legal(items[0].value) && Blank(items[0].after)
      && LegalItems(items[1..])
  }

  predicate LegalMember(m: Member)
    decreases m
  {
    && Blank(m.before) && LegalText(m.key) && Blank(m.beforeColon) && Blank(m.afterColon)
    && Legal(m.value) && Blank(m.after)
  }

  predicate LegalMembers(members: seq<Member>)
    decreases members
  {
    |members| > 0 ==> LegalMember(members[0]) && LegalMembers(members[1..])
  }

  // ------------------------------------------------------------------ the text

  function NibbleText(n: Nibble): byte
    requires n.d < 16
  {
    if n.d < 10 then 48 + n.d else if n.upper then 55 + n.d else 87 + n.d
  }

  function PieceText(p: Piece): Bytes
    requires LegalPiece(p)
  {
    match p
    case Plain(b) => [b]
    case Short(letter) => [92, letter]
    case Unicode(hex, _) =>
      [92, 117, NibbleText(hex[0]), NibbleText(hex[1]), NibbleText(hex[2]), NibbleText(hex[3])]
  }

  function PiecesText(pieces: seq<Piece>): Bytes
    requires LegalText(pieces)
  {
    if |pieces| == 0 then [] else PieceText(pieces[0]) + PiecesText(pieces[1..])
  }

  function Quoted(pieces: seq<Piece>): Bytes
    requires LegalText(pieces)
  {
    [34] + (PiecesText(pieces) + [34])
  }

  function SignText(sign: Sign): Bytes {
    match sign
    case NoSign => []
    case Plus => [43]
    case Minus => [45]
  }

  function ExpText(exp: Exp): Bytes {
    if exp.NoExp? then [] else [if exp.upper then 69 else 101] + (SignText(exp.sign) + exp.digits)
  }

  function FractionText(fraction: Option<Bytes>): Bytes {
    if fraction.None? then [] else [46] + fraction.value
  }

  function NumberText(negative: bool, whole: Bytes, fraction: Option<Bytes>, exp: Exp): Bytes {
    (if negative then [45] else []) + (whole + (FractionText(fraction) + ExpText(exp)))
  }

  function Written(s: Spelled): Bytes
    requires Legal(s)
    decreases s
  {
    match s
    case Null => [110, 117, 108, 108]
    case Bool(b) => if b then [116, 114, 117, 101] else [102, 97, 108, 115, 101]
    case Number(negative, whole, fraction, exp) => NumberText(negative, whole, fraction, exp)
    case Text(pieces) => Quoted(pieces)
    case Array(blank, items) => if |items| == 0 then [91] + (blank + [93]) else [91] + WrittenItems(items)
    case Object(blank, members) => if |members| == 0 then [123] + (blank + [125]) else [123] + WrittenMembers(members)
  }

  /** The items, separated by commas and closed by the bracket. */
  function WrittenItems(items: seq<Item>): Bytes
    requires LegalItems(items) && |items| > 0
    decreases items
  {
    items[0].before + (Written(items[0].value) + (items[0].after
      + (if |items| == 1 then [93] else [44] + WrittenItems(items[1..]))))
  }

  function WrittenMember(m: Member): Bytes
    requires LegalMember(m)
    decreases m
  {
    m.before + (Quoted(m.key) + (m.beforeColon + ([58] + (m.afterColon + (Written(m.value) + m.after)))))
  }

  function WrittenMembers(members: seq<Member>): Bytes
    requires LegalMembers(members) && |members| > 0
    decreases members
  {
    WrittenMember(members[0]) + if |members| == 1 then [125] else [44] + WrittenMembers(members[1..])
  }

  // ------------------------------------------------------------------ the value

  function PieceBytes(p: Piece): Bytes {
    match p
    case Plain(b) => [b]
    case Short(letter) =>
      [if letter == 98 then 8 else if letter == 102 then 12 else if letter == 110 then 10
       else if letter == 114 then 13 else if letter == 116 then 9 else letter]
    case Unicode(_, utf8) => utf8
  }

  function PiecesBytes(pieces: seq<Piece>): Bytes {
    if |pieces| == 0 then [] else PieceBytes(pieces[0]) + PiecesBytes(pieces[1..])
  }

  /** A C string ends at its first zero byte. */
  function UntilZero(s: Bytes): (r: Bytes)
    ensures r <= s && 0 !in r && (|r| < |s| ==> s[|r|] == 0)
  {
    if |s| == 0 || s[0] == 0 then [] else [s[0]] + UntilZero(s[1..])
  }

  function Means(lib: Libc, s: Spelled): Value
    decreases s
  {
    match s
    case Null => Value.Null
    case Bool(b) => Value.Bool(b)
    case Number(negative, whole, fraction, exp) => Value.Number(lib.strtod(NumberText(negative, whole, fraction, exp)))
    case Text(pieces) => String(UntilZero(PiecesBytes(pieces)))
    case Array(_, items) => Value.Array(MeansItems(lib, items))
    case Object(_, members) => Value.Object(MeansMembers(lib, members))
  }

  function MeansItems(lib: Libc, items: seq<Item>): seq<Value>
    decreases items
  {
    if |items| == 0 then [] else [Means(lib, items[0].value)] + MeansItems(lib, items[1..])
  }

  function MeansMember(lib: Libc, m: Member): Pair
    decreases m
  {
    Pair(UntilZero(PiecesBytes(m.key)), Means(lib, m.value))
  }

  function MeansMembers(lib: Libc, members: seq<Member>): seq<Pair>
    decreases members
  {
    if |members| == 0 then [] else [MeansMember(lib, members[0])] + MeansMembers(lib, members[1..])
  }

  // ------------------------------------------------------------------ reading: white space

  lemma {:induction false} SkipBlank(w: Bytes, t: Bytes)
    requires Blank(w)
    ensures SkipWs(w + t) == SkipWs(t)
  {
    if |w| == 0 {
      assert w + t == t;
    } else {
      assert (w + t)[1..] == w[1..] + t;
      SkipBlank(w[1..], t);
    }
  }

  predicate NotBlank(t: Bytes) {
    |t| > 0 && t[0] != 32 && t[0] != 9 && t[0] != 10 && t[0] != 13
  }

  lemma SkipTo(w: Bytes, t: Bytes)
    requires Blank(w) && NotBlank(t)
    ensures SkipWs(w + t) == t && SkipWs(t) == t
  {
    SkipBlank(w, t);
  }

  /** What `SkipWs` drops is blank, and it stops at a byte that is not. */
  lemma {:induction false} Skipped(t: Bytes) returns (w: Bytes)
    ensures Blank(w) && t == w + SkipWs(t) && (|SkipWs(t)| > 0 ==> NotBlank(SkipWs(t)))
  {
    w := [];
    if |t| > 0 && IsWs(t[0]) {
      var w' := Skipped(t[1..]);
      w := [t[0]] + w';
      assert t == [t[0]] + t[1..];
      Assoc([t[0]], w', SkipWs(t));
    }
  }

  // ------------------------------------------------------------------ reading: strings

  lemma NibbleBack(n: Nibble)
    requires n.d < 16
    ensures Hex(NibbleText(n)) == n.d && NibbleText(n) != 34 && NibbleText(n) != 92
  {
  }

  lemma Split64(n: int, high: int, low: int)
    ensures (0 <= low < 64 && high * 64 + low == n) <==> (high == n / 64 && low == n % 64)
  {
  }

  lemma Utf8Short(cp: nat, bytes: Bytes)
    requires cp < 0x800
    ensures Encodes(cp, bytes) <==> bytes == Utf8(cp)
  {
    if |bytes| == 2 {
      Split64(cp, Low(bytes[0], 0xC0), Low(bytes[1], 0x80));
    } else if |bytes| == 3 && Encodes(cp, bytes) {
      assert false;
    }
  }

  lemma Utf8Long(cp: nat, bytes: Bytes)
    requires 0x800 <= cp < 0x10000
    ensures Encodes(cp, bytes) <==> bytes == Utf8(cp)
  {
    assert cp / 4096 == cp / 64 / 64;
    if |bytes| == 3 {
      var a, b, c := Low(bytes[0], 0xE0), Low(bytes[1], 0x80), Low(bytes[2], 0x80);
      Split64(cp, a * 64 + b, c);
      Split64(cp / 64, a, b);
    }
  }

  lemma Utf8Encodes(cp: nat, bytes: Bytes)
    requires cp < 0x10000
    ensures Encodes(cp, bytes) <==> bytes == Utf8(cp)
  {
    hide Encodes, Utf8;
    if cp < 0x800 {
      Utf8Short(cp, bytes);
    } else {
      Utf8Long(cp, bytes);
    }
  }

  lemma CharReads(p: Piece, rest: Bytes)
    requires LegalPiece(p)
    ensures PieceText(p)[0] != 34 && Char(PieceText(p) + rest) == Some((PieceBytes(p), |PieceText(p)|))
    ensures (PieceText(p) + rest)[|PieceText(p)|..] == rest
  {
    var t := PieceText(p) + rest;
    match p
    case Plain(_) =>
    case Short(_) =>
    case Unicode(hex, utf8) =>
      var h := t[2..];
      assert h[0] == NibbleText(hex[0]) && h[1] == NibbleText(hex[1]);
      assert h[2] == NibbleText(hex[2]) && h[3] == NibbleText(hex[3]);
      NibbleBack(hex[0]);
      NibbleBack(hex[1]);
      NibbleBack(hex[2]);
      NibbleBack(hex[3]);
      var cp := ((hex[0].d * 16 + hex[1].d) * 16 + hex[2].d) * 16 + hex[3].d;
      assert Hex4(h) == Some(cp);
      Utf8Encodes(cp, utf8);
  }

  lemma {:induction false} BodyReads(pieces: seq<Piece>, rest: Bytes)
    requires LegalText(pieces)
    ensures Body(PiecesText(pieces) + ([34] + rest)) == Some((PiecesBytes(pieces), rest))
  {
    var t := PiecesText(pieces) + ([34] + rest);
    if |pieces| == 0 {
      assert t == [34] + rest && t[1..] == rest;
    } else {
      var more := PiecesText(pieces[1..]) + ([34] + rest);
      Assoc(PieceText(pieces[0]), PiecesText(pieces[1..]), [34] + rest);
      CharReads(pieces[0], more);
      BodyReads(pieces[1..], rest);
      hide Char, PieceText, PiecesText;
    }
  }

  lemma {:induction false} CStringIs(s: Bytes)
    ensures CString(s) == UntilZero(s)
  {
    if |s| > 0 && s[0] != 0 {
      CStringIs(s[1..]);
    }
  }

  lemma TextReads(pieces: seq<Piece>, rest: Bytes)
    requires LegalText(pieces)
    ensures Json.Text(Quoted(pieces) + rest) == Some((UntilZero(PiecesBytes(pieces)), rest))
    ensures NotBlank(Quoted(pieces) + rest) && (Quoted(pieces) + rest)[0] == 34
  {
    var t := Quoted(pieces) + rest;
    assert t == [34] + (PiecesText(pieces) + ([34] + rest));
    assert t[1..] == PiecesText(pieces) + ([34] + rest);
    BodyReads(pieces, rest);
    CStringIs(PiecesBytes(pieces));
  }

  // ------------------------------------------------------------------ reading: numbers

  /** No number goes on here. */
  predicate Ends(rest: Bytes) {
    |rest| == 0 || !(48 <= rest[0] <= 57 || rest[0] == 46 || rest[0] == 101 || rest[0] == 69)
  }

  predicate NoDigit(rest: Bytes) {
    |rest| == 0 || !(48 <= rest[0] <= 57)
  }

  lemma {:induction false} RunRead(ds: Bytes, rest: Bytes)
    requires NoDigit(rest) && forall i :: 0 <= i < |ds| ==> 48 <= ds[i] <= 57
    ensures SkipDigits(ds + rest) == rest
  {
    if |ds| == 0 {
      assert ds + rest == rest;
    } else {
      assert (ds + rest)[1..] == ds[1..] + rest;
      RunRead(ds[1..], rest);
    }
  }

  lemma DigitsRead(ds: Bytes, rest: Bytes)
    requires Digits(ds) && NoDigit(rest)
    ensures Digits1(ds + rest) == Some(rest) && IsDigit((ds + rest)[0])
  {
    assert (ds + rest)[1..] == ds[1..] + rest;
    RunRead(ds[1..], rest);
  }

  lemma Front(b: byte, u: Bytes, v: Bytes, rest: Bytes)
    ensures ([b] + (u + v) + rest)[0] == b && ([b] + (u + v) + rest)[1..] == u + (v + rest)
  {
  }

  lemma ExpRead(exp: Exp, rest: Bytes)
    requires (exp.Exp? ==> Digits(exp.digits)) && Ends(rest)
    ensures Exponent(ExpText(exp) + rest) == Some(rest) && NoDigit(ExpText(exp) + rest)
    ensures !StartsWith(ExpText(exp) + rest, DOT)
  {
    if exp.NoExp? {
      assert ExpText(exp) + rest == rest;
    } else {
      hide Digits1, SkipSign, SignText, Digits;
      var t := ExpText(exp) + rest;
      Front(if exp.upper then 69 else 101, SignText(exp.sign), exp.digits, rest);
      DigitsRead(exp.digits, rest);
      SignRead(exp.sign, exp.digits + rest);
    }
  }

  lemma SignRead(sign: Sign, rest: Bytes)
    requires |rest| > 0 && IsDigit(rest[0])
    ensures SkipSign(SignText(sign) + rest) == rest
  {
    if sign.NoSign? {
      assert SignText(sign) + rest == rest;
    } else {
      assert (SignText(sign) + rest)[1..] == rest;
    }
  }

  lemma FractionRead(fraction: Option<Bytes>, rest: Bytes)
    requires (fraction.Some? ==> Digits(fraction.value)) && NoDigit(rest) && !StartsWith(rest, DOT)
    ensures Fraction(FractionText(fraction) + rest) == Some(rest) && NoDigit(FractionText(fraction) + rest)
  {
    if fraction.None? {
      assert FractionText(fraction) + rest == rest;
    } else {
      assert (FractionText(fraction) + rest)[1..] == fraction.value + rest;
      DigitsRead(fraction.value, rest);
    }
  }

  lemma NumberReads(negative: bool, whole: Bytes, fraction: Option<Bytes>, exp: Exp, rest: Bytes)
    requires LegalNumber(whole, fraction, exp) && Ends(rest)
    ensures var t := NumberText(negative, whole, fraction, exp);
            && AfterNumber(t + rest) == Some(rest) && |t| > 0 && (t[0] == 45 || IsDigit(t[0]))
  {
    hide Digits1, Fraction, Exponent, FractionText, ExpText;
    var t := NumberText(negative, whole, fraction, exp);
    var e := ExpText(exp) + rest;
    var f := FractionText(fraction) + e;
    ExpRead(exp, rest);
    FractionRead(fraction, e);
    DigitsRead(whole, f);
    assert t + rest == (if negative then [45] else []) + (whole + f);
    assert negative ==> (t + rest)[1..] == whole + f;
    assert !negative ==> t + rest == whole + f;
  }

  // ------------------------------------------------------------------ reading: values

  /** A value does not begin with white space or a closing bracket. */
  predicate Starts(t: Bytes) {
    NotBlank(t) && t[0] != 93 && t[0] != 125
  }

  lemma BlankValue(lib: Libc, w: Bytes, t: Bytes)
    requires Blank(w)
    ensures ParseValue(lib, w + t) == ParseValue(lib, t)
  {
    SkipBlank(w, t);
    hide SkipWs, Json.Text, ParseItems, ParsePairs, AfterNumber;
  }

  lemma WordReads(lib: Libc, s: Spelled, rest: Bytes)
    requires s.Null? || s.Bool?
    ensures ParseValue(lib, Written(s) + rest) == Some((Means(lib, s), rest)) && Starts(Written(s) + rest)
  {
    hide Json.Text, ParseItems, ParsePairs, AfterNumber;
    var t := Written(s) + rest;
    assert t[|Written(s)|..] == rest;
    assert SkipWs(t) == t;
    hide SkipWs;
  }

  lemma NumberValue(lib: Libc, s: Spelled, rest: Bytes)
    requires s.Number? && Legal(s) && Ends(rest)
    ensures ParseValue(lib, Written(s) + rest) == Some((Means(lib, s), rest)) && Starts(Written(s) + rest)
  {
    var t := Written(s) + rest;
    NumberReads(s.negative, s.whole, s.fraction, s.exp, rest);
    assert SkipWs(t) == t;
    assert t[..|t| - |rest|] == Written(s);
    hide Json.Text, ParseItems, ParsePairs, AfterNumber, SkipWs, NumberText;
  }

  lemma TextValue(lib: Libc, s: Spelled, rest: Bytes)
    requires s.Text? && Legal(s)
    ensures ParseValue(lib, Written(s) + rest) == Some((Means(lib, s), rest)) && Starts(Written(s) + rest)
  {
    TextReads(s.pieces, rest);
    assert SkipWs(Written(s) + rest) == Written(s) + rest;
    hide Json.Text, ParseItems, ParsePairs, AfterNumber, SkipWs, Quoted;
  }

  /** The opening bracket, with what is read behind it. */
  lemma Opening(lib: Libc, b: byte, inner: Bytes)
    requires b == 91 || b == 123
    ensures SkipWs([b] + inner) == [b] + inner && ([b] + inner)[1..] == inner
  {
  }

  lemma EmptyReads(lib: Libc, s: Spelled, rest: Bytes)
    requires Legal(s) && ((s.Array? && s.items == []) || (s.Object? && s.members == []))
    ensures ParseValue(lib, Written(s) + rest) == Some((Means(lib, s), rest)) && Starts(Written(s) + rest)
  {
    hide Json.Text, ParseItems, ParsePairs, AfterNumber;
    var b: byte, close: byte := if s.Array? then 91 else 123, if s.Array? then 93 else 125;
    assert Written(s) + rest == [b] + (s.blank + ([close] + rest));
    Opening(lib, b, s.blank + ([close] + rest));
    SkipTo(s.blank, [close] + rest);
    assert ([close] + rest)[1..] == rest;
    hide SkipWs;
  }

  lemma {:induction false} ValueReads(lib: Libc, s: Spelled, rest: Bytes)
    requires Legal(s) && Ends(rest)
    ensures ParseValue(lib, Written(s) + rest) == Some((Means(lib, s), rest)) && Starts(Written(s) + rest)
    decreases s, 0
  {
    hide ParseValue, Ends;
    match s
    case Null => WordReads(lib, s, rest);
    case Bool(_) => WordReads(lib, s, rest);
    case Number(_, _, _, _) => NumberValue(lib, s, rest);
    case Text(_) => TextValue(lib, s, rest);
    case Array(_, items) =>
      if |items| == 0 {
        EmptyReads(lib, s, rest);
      } else {
        ItemsRead(lib, items, rest);
        ArrayReads(lib, s, rest);
      }
    case Object(_, members) =>
      if |members| == 0 {
        EmptyReads(lib, s, rest);
      } else {
        MembersRead(lib, members, rest);
        ObjectReads(lib, s, rest);
      }
  }

  lemma ArrayReads(lib: Libc, s: Spelled, rest: Bytes)
    requires s.Array? && Legal(s) && |s.items| > 0
    requires ParseItems(lib, WrittenItems(s.items) + rest) == Some((MeansItems(lib, s.items), rest))
    requires !StartsWith(SkipWs(WrittenItems(s.items) + rest), RBRACKET)
    ensures ParseValue(lib, Written(s) + rest) == Some((Means(lib, s), rest)) && Starts(Written(s) + rest)
  {
    hide Json.Text, ParseItems, ParsePairs, AfterNumber, WrittenItems, MeansItems;
    var inner := WrittenItems(s.items) + rest;
    assert Written(s) + rest == [91] + inner;
    Opening(lib, 91, inner);
    hide SkipWs;
  }

  lemma ObjectReads(lib: Libc, s: Spelled, rest: Bytes)
    requires s.Object? && Legal(s) && |s.members| > 0
    requires ParsePairs(lib, WrittenMembers(s.members) + rest) == Some((MeansMembers(lib, s.members), rest))
    requires !StartsWith(SkipWs(WrittenMembers(s.members) + rest), RBRACE)
    ensures ParseValue(lib, Written(s) + rest) == Some((Means(lib, s), rest)) && Starts(Written(s) + rest)
  {
    hide Json.Text, ParseItems, ParsePairs, AfterNumber, WrittenMembers, MeansMembers;
    var inner := WrittenMembers(s.members) + rest;
    assert Written(s) + rest == [123] + inner;
    Opening(lib, 123, inner);
    hide SkipWs;
  }

  lemma EndsBlank(w: Bytes, t: Bytes)
    requires Blank(w) && |t| > 0 && (t[0] == 44 || t[0] == 93 || t[0] == 125)
    ensures Ends(w + t) && SkipWs(w + t) == t
  {
    SkipTo(w, t);
  }

  /** One item, and then a comma or the bracket. */
  lemma ItemStep(lib: Libc, item: Item, tail: Bytes)
    requires Blank(item.before) && Legal(item.value) && Blank(item.after)
    requires |tail| > 0 && (tail[0] == 44 || tail[0] == 93)
    requires var x := Written(item.value) + (item.after + tail);
             ParseValue(lib, x) == Some((Means(lib, item.value), item.after + tail)) && Starts(x)
    ensures var text := item.before + (Written(item.value) + (item.after + tail));
            && SkipWs(text) == Written(item.value) + (item.after + tail)
            && ParseItems(lib, text) ==
               if tail[0] == 93 then Some(([Means(lib, item.value)], tail[1..]))
               else if ParseItems(lib, tail[1..]).None? then None
               else Some(([Means(lib, item.value)] + ParseItems(lib, tail[1..]).value.0,
                          ParseItems(lib, tail[1..]).value.1))
  {
    SkipTo(item.before, Written(item.value) + (item.after + tail));
    SkipTo(item.after, tail);
    hide ParseValue, SkipWs, Written, Means;
  }

  lemma {:induction false} ItemsRead(lib: Libc, items: seq<Item>, rest: Bytes)
    requires LegalItems(items) && |items| > 0
    ensures ParseItems(lib, WrittenItems(items) + rest) == Some((MeansItems(lib, items), rest))
    ensures !StartsWith(SkipWs(WrittenItems(items) + rest), RBRACKET)
    decreases items, 1
  {
    hide ParseItems, ParseValue, SkipWs;
    var item := items[0];
    var tail := if |items| == 1 then [93] + rest else [44] + (WrittenItems(items[1..]) + rest);
    TailJoins(item.before, Written(item.value), item.after,
              if |items| == 1 then [93] else [44] + WrittenItems(items[1..]), rest);
    assert |items| > 1 ==> [44] + WrittenItems(items[1..]) + rest == tail;
    EndsBlank(item.after, tail);
    ValueReads(lib, item.value, item.after + tail);
    ItemStep(lib, item, tail);
    if |items| == 1 {
      assert tail[1..] == rest;
      assert MeansItems(lib, items) == [Means(lib, item.value)];
    } else {
      assert tail[1..] == WrittenItems(items[1..]) + rest;
      ItemsRead(lib, items[1..], rest);
    }
  }

  lemma TailJoins(a: Bytes, b: Bytes, c: Bytes, d: Bytes, rest: Bytes)
    ensures a + (b + (c + d)) + rest == a + (b + (c + (d + rest)))
  {
  }

  lemma MemberJoins(m: Member, rest: Bytes)
    requires LegalMember(m)
    ensures WrittenMember(m) + rest ==
            m.before
            + (Quoted(m.key) + (m.beforeColon + ([58] + (m.afterColon + (Written(m.value) + (m.after + rest))))))
  {
    hide Quoted, Written, LegalMember;
  }

  lemma MemberStep(lib: Libc, m: Member, rest: Bytes)
    requires LegalMember(m)
    requires var x := Written(m.value) + rest;
             ParseValue(lib, x) == Some((Means(lib, m.value), rest)) && Starts(x)
    ensures var text := m.before
                        + (Quoted(m.key) + (m.beforeColon + ([58] + (m.afterColon + (Written(m.value) + rest)))));
            && ParsePair(lib, text) == Some((MeansMember(lib, m), rest))
            && !StartsWith(SkipWs(text), RBRACE)
  {
    var value := m.afterColon + (Written(m.value) + rest);
    var colon := m.beforeColon + ([58] + value);
    TextReads(m.key, colon);
    SkipTo(m.before, Quoted(m.key) + colon);
    SkipTo(m.beforeColon, [58] + value);
    SkipTo(m.afterColon, Written(m.value) + rest);
    assert ([58] + value)[1..] == value;
    hide ParseValue, SkipWs, Written, Means, Json.Text, Quoted, PiecesBytes, UntilZero;
  }

  lemma {:induction false} MembersRead(lib: Libc, members: seq<Member>, rest: Bytes)
    requires LegalMembers(members) && |members| > 0
    ensures ParsePairs(lib, WrittenMembers(members) + rest) == Some((MeansMembers(lib, members), rest))
    ensures !StartsWith(SkipWs(WrittenMembers(members) + rest), RBRACE)
    decreases members, 1
  {
    hide ParsePair, ParseValue, SkipWs, WrittenMember, MeansMember;
    var m := members[0];
    var tail := if |members| == 1 then [125] + rest else [44] + (WrittenMembers(members[1..]) + rest);
    assert WrittenMembers(members) + rest == WrittenMember(m) + tail;
    MemberJoins(m, tail);
    EndsBlank(m.after, tail);
    ValueReads(lib, m.value, m.after + tail);
    MemberStep(lib, m, m.after + tail);
    if |members| == 1 {
      assert tail[1..] == rest;
      assert MeansMembers(lib, members) == [MeansMember(lib, m)];
    } else {
      assert tail[1..] == WrittenMembers(members[1..]) + rest;
      MembersRead(lib, members[1..], rest);
    }
  }

  // ------------------------------------------------------------------ what was read is a spelling

  lemma NibbleFrom(b: byte) returns (n: Nibble)
    requires Hex(b) >= 0
    ensures n.d < 16 && NibbleText(n) == b && n.d == Hex(b)
  {
    n := Nibble(Hex(b), 65 <= b <= 70);
  }

  lemma PieceFrom(t: Bytes) returns (p: Piece)
    requires |t| > 0 && t[0] != 34 && Char(t).Some?
    ensures LegalPiece(p) && PieceBytes(p) == Char(t).value.0 && PieceText(p) == t[..Char(t).value.1]
  {
    if t[0] != 92 {
      p := Plain(t[0]);
    } else if Unescape(t[1]).Some? {
      p := Short(t[1]);
    } else {
      var h := t[2..];
      assert h[0] == t[2] && h[1] == t[3] && h[2] == t[4] && h[3] == t[5];
      var a := NibbleFrom(t[2]);
      var b := NibbleFrom(t[3]);
      var c := NibbleFrom(t[4]);
      var d := NibbleFrom(t[5]);
      var cp := Hex4(h).value;
      p := Unicode([a, b, c, d], Utf8(cp));
      Utf8Encodes(cp, Utf8(cp));
    }
  }

  lemma {:induction false} PiecesFrom(t: Bytes) returns (pieces: seq<Piece>)
    requires Body(t).Some?
    ensures LegalText(pieces) && PiecesBytes(pieces) == Body(t).value.0
    ensures t == PiecesText(pieces) + ([34] + Body(t).value.1)
    decreases |t|
  {
    hide Char, PieceText, PieceBytes, LegalPiece;
    pieces := [];
    if t[0] == 34 {
      assert t == [34] + t[1..];
    } else {
      var n := Char(t).value.1;
      var p := PieceFrom(t);
      var more := PiecesFrom(t[n..]);
      pieces := PieceFirst(p, more);
      assert t == t[..n] + t[n..];
      Assoc(PieceText(p), PiecesText(more), [34] + Body(t).value.1);
    }
  }

  lemma PieceFirst(p: Piece, more: seq<Piece>) returns (pieces: seq<Piece>)
    requires LegalPiece(p) && LegalText(more)
    ensures pieces == [p] + more
    ensures LegalText(pieces) && PiecesText(pieces) == PieceText(p) + PiecesText(more)
    ensures PiecesBytes(pieces) == PieceBytes(p) + PiecesBytes(more)
  {
    hide LegalPiece, PieceText, PieceBytes;
    pieces := [p] + more;
    assert pieces[1..] == more;
  }

  lemma TextFrom(t: Bytes) returns (pieces: seq<Piece>)
    requires Json.Text(t).Some?
    ensures LegalText(pieces) && Json.Text(t).value.0 == UntilZero(PiecesBytes(pieces))
    ensures t == Quoted(pieces) + Json.Text(t).value.1
  {
    pieces := PiecesFrom(t[1..]);
    CStringIs(PiecesBytes(pieces));
    var rest := Json.Text(t).value.1;
    assert t == [34] + t[1..];
    hide Body, PiecesText;
  }

  lemma {:induction false} RunFrom(t: Bytes) returns (ds: Bytes)
    ensures t == ds + SkipDigits(t) && forall i :: 0 <= i < |ds| ==> 48 <= ds[i] <= 57
  {
    ds := [];
    if |t| > 0 && IsDigit(t[0]) {
      var more := RunFrom(t[1..]);
      ds := [t[0]] + more;
      assert t == [t[0]] + t[1..];
    }
  }

  lemma DigitsFrom(t: Bytes) returns (ds: Bytes)
    requires Digits1(t).Some?
    ensures Digits(ds) && t == ds + Digits1(t).value
  {
    var more := RunFrom(t[1..]);
    ds := [t[0]] + more;
    assert t == [t[0]] + t[1..];
  }

  lemma ExpFrom(t: Bytes) returns (exp: Exp)
    requires Exponent(t).Some?
    ensures (exp.Exp? ==> Digits(exp.digits)) && t == ExpText(exp) + Exponent(t).value
  {
    exp := NoExp;
    hide Digits1, SignText, SkipSign, Digits;
    if StartsWith(t, 101) || StartsWith(t, 69) {
      var u := t[1..];
      var ds := DigitsFrom(SkipSign(u));
      exp := Exp(t[0] == 69, if StartsWith(u, 43) then Plus else if StartsWith(u, 45) then Sign.Minus else NoSign, ds);
      SignFrom(u, exp.sign);
      var rest := Exponent(t).value;
      assert t == [t[0]] + u;
      ExpJoins(t[0], SignText(exp.sign), ds, rest);
    } else {
      assert t == [] + t;
    }
  }

  lemma ExpJoins(b: byte, sign: Bytes, ds: Bytes, rest: Bytes)
    ensures [b] + (sign + (ds + rest)) == [b] + (sign + ds) + rest
  {
  }

  lemma SignFrom(u: Bytes, sign: Sign)
    requires sign == if StartsWith(u, 43) then Plus else if StartsWith(u, 45) then Sign.Minus else NoSign
    ensures u == SignText(sign) + SkipSign(u)
  {
  }

  lemma FractionFrom(t: Bytes) returns (fraction: Option<Bytes>)
    requires Fraction(t).Some?
    ensures (fraction.Some? ==> Digits(fraction.value)) && t == FractionText(fraction) + Fraction(t).value
  {
    fraction := None;
    if StartsWith(t, DOT) {
      hide Digits1;
      var ds := DigitsFrom(t[1..]);
      fraction := Some(ds);
      assert t == [46] + t[1..];
      hide Digits;
    } else {
      assert t == [] + t;
    }
  }

  lemma NumberFrom(t: Bytes) returns (s: Spelled)
    requires AfterNumber(t).Some?
    ensures s.Number? && Legal(s) && t == Written(s) + AfterNumber(t).value
  {
    hide Digits1, Fraction, Exponent;
    var negative := StartsWith(t, MINUS);
    var u := if negative then t[1..] else t;
    var whole := DigitsFrom(u);
    var fraction := FractionFrom(Digits1(u).value);
    var exp := ExpFrom(Fraction(Digits1(u).value).value);
    s := Spelled.Number(negative, whole, fraction, exp);
    var rest := AfterNumber(t).value;
    hide FractionText, ExpText, Digits;
    assert u == whole + (FractionText(fraction) + (ExpText(exp) + rest));
    assert t == (if negative then [45] else []) + u;
    NumberJoins(if negative then [45] else [], whole, FractionText(fraction), ExpText(exp), rest);
  }

  lemma NumberJoins(a: Bytes, b: Bytes, c: Bytes, d: Bytes, rest: Bytes)
    ensures a + (b + (c + (d + rest))) == a + (b + (c + d)) + rest
  {
  }

  /** The value a parse found, without the white space in front. */
  lemma {:induction false} ValueFrom(lib: Libc, text: Bytes) returns (w: Bytes, s: Spelled)
    requires ParseValue(lib, text).Some?
    ensures Blank(w) && Legal(s) && Means(lib, s) == ParseValue(lib, text).value.0
    ensures text == w + (Written(s) + ParseValue(lib, text).value.1)
    decreases |text|, 0
  {
    w := Skipped(text);
    var t := SkipWs(text);
    if t[0] == 34 {
      s := TextSpelled(lib, t);
    } else if t[0] == 91 {
      s := ArraySpelled(lib, t);
    } else if t[0] == 123 {
      s := ObjectSpelled(lib, t);
    } else {
      s := WordOrNumber(lib, t);
    }
    SkipNone(w, t);
    BlankValue(lib, w, t);
  }

  lemma SkipNone(w: Bytes, t: Bytes)
    ensures NotBlank(t) ==> SkipWs(t) == t
  {
  }

  lemma TextSpelled(lib: Libc, t: Bytes) returns (s: Spelled)
    requires NotBlank(t) && t[0] == 34 && ParseValue(lib, t).Some?
    ensures Legal(s) && Means(lib, s) == ParseValue(lib, t).value.0 && t == Written(s) + ParseValue(lib, t).value.1
  {
    hide Json.Text, ParseItems, ParsePairs, AfterNumber, Quoted, PiecesBytes, UntilZero, LegalText;
    SkipNone([], t);
    var pieces := TextFrom(t);
    s := Text(pieces);
  }

  lemma WordOrNumber(lib: Libc, t: Bytes) returns (s: Spelled)
    requires NotBlank(t) && t[0] !in [34 as byte, 91, 123] && ParseValue(lib, t).Some?
    ensures Legal(s) && Means(lib, s) == ParseValue(lib, t).value.0 && t == Written(s) + ParseValue(lib, t).value.1
  {
    hide Json.Text, ParseItems, ParsePairs, AfterNumber, NumberText, LegalNumber;
    SkipNone([], t);
    if t[0] == 116 {
      s := Spelled.Bool(true);
    } else if t[0] == 102 {
      s := Spelled.Bool(false);
    } else if t[0] == 110 {
      s := Spelled.Null;
    } else {
      s := NumberFrom(t);
      assert t[..|t| - |AfterNumber(t).value|] == Written(s);
    }
  }

  lemma Brackets(lib: Libc, inner: Bytes)
    ensures ParseValue(lib, [91] + inner) ==
            if StartsWith(SkipWs(inner), RBRACKET) then Some((Value.Array([]), SkipWs(inner)[1..]))
            else if ParseItems(lib, inner).None? then None
            else Some((Value.Array(ParseItems(lib, inner).value.0), ParseItems(lib, inner).value.1))
    ensures ParseValue(lib, [123] + inner) ==
            if StartsWith(SkipWs(inner), RBRACE) then Some((Value.Object([]), SkipWs(inner)[1..]))
            else if ParsePairs(lib, inner).None? then None
            else Some((Value.Object(ParsePairs(lib, inner).value.0), ParsePairs(lib, inner).value.1))
  {
    hide Json.Text, ParseItems, ParsePairs, AfterNumber;
    Opening(lib, 91, inner);
    Opening(lib, 123, inner);
    hide SkipWs;
  }

  lemma EmptyJoins(b: byte, w: Bytes, t: Bytes)
    requires |t| > 0
    ensures [b] + (w + t) == [b] + (w + [t[0]]) + t[1..]
  {
    assert t == [t[0]] + t[1..];
  }

  lemma {:induction false} ArraySpelled(lib: Libc, t: Bytes) returns (s: Spelled)
    requires NotBlank(t) && t[0] == 91 && ParseValue(lib, t).Some?
    ensures Legal(s) && Means(lib, s) == ParseValue(lib, t).value.0 && t == Written(s) + ParseValue(lib, t).value.1
    decreases |t|, 0, 0
  {
    hide ParseValue, ParseItems, SkipWs, WrittenItems, MeansItems, Blank;
    var inner := t[1..];
    assert t == [91] + inner;
    Brackets(lib, inner);
    if StartsWith(SkipWs(inner), RBRACKET) {
      var w := Skipped(inner);
      s := Spelled.Array(w, []);
      EmptyJoins(91, w, SkipWs(inner));
      NoItems(lib);
    } else {
      var items := ItemsFrom(lib, inner);
      s := Spelled.Array([], items);
      NoBlank();
      Assoc([91], WrittenItems(items), ParseItems(lib, inner).value.1);
    }
  }

  lemma NoItems(lib: Libc)
    ensures MeansItems(lib, []) == [] && MeansMembers(lib, []) == []
  {
  }

  lemma NoBlank()
    ensures Blank([])
  {
  }

  lemma {:induction false} ObjectSpelled(lib: Libc, t: Bytes) returns (s: Spelled)
    requires NotBlank(t) && t[0] == 123 && ParseValue(lib, t).Some?
    ensures Legal(s) && Means(lib, s) == ParseValue(lib, t).value.0 && t == Written(s) + ParseValue(lib, t).value.1
    decreases |t|, 0, 0
  {
    hide ParseValue, ParsePairs, SkipWs, WrittenMembers, MeansMembers, Blank;
    var inner := t[1..];
    assert t == [123] + inner;
    Brackets(lib, inner);
    if StartsWith(SkipWs(inner), RBRACE) {
      var w := Skipped(inner);
      s := Spelled.Object(w, []);
      EmptyJoins(123, w, SkipWs(inner));
      NoItems(lib);
    } else {
      var members := MembersFrom(lib, inner);
      s := Spelled.Object([], members);
      NoBlank();
      Assoc([123], WrittenMembers(members), ParsePairs(lib, inner).value.1);
    }
  }

  lemma {:induction false} ItemsFrom(lib: Libc, text: Bytes) returns (items: seq<Item>)
    requires ParseItems(lib, text).Some?
    ensures |items| > 0 && LegalItems(items) && MeansItems(lib, items) == ParseItems(lib, text).value.0
    ensures text == WrittenItems(items) + ParseItems(lib, text).value.1
    decreases |text|, 1
  {
    hide ParseValue, SkipWs, Written, Means, Legal;
    var before := Skipped(text);
    var u := SkipWs(text);
    var w, value := ValueFrom(lib, u);
    var after := Skipped(ParseValue(lib, u).value.1);
    var t := SkipWs(ParseValue(lib, u).value.1);
    var item := Item(before + w, value, after);
    var rest := ParseItems(lib, text).value.1;
    assert t == [t[0]] + t[1..];
    if StartsWith(t, COMMA) {
      var more := ItemsFrom(lib, t[1..]);
      items := [item] + more;
      assert items[1..] == more;
      ItemJoins(before, w, Written(value), after, [44] + WrittenItems(more), rest);
      assert [44] + (WrittenItems(more) + rest) == [44] + WrittenItems(more) + rest;
    } else {
      items := [item];
      ItemJoins(before, w, Written(value), after, [93], rest);
    }
  }

  lemma ItemJoins(before: Bytes, w: Bytes, v: Bytes, after: Bytes, tail: Bytes, rest: Bytes)
    ensures before + (w + (v + (after + (tail + rest)))) == before + w + (v + (after + tail)) + rest
  {
  }

  lemma {:induction false} MemberFrom(lib: Libc, text: Bytes) returns (m: Member)
    requires ParsePair(lib, text).Some?
    ensures LegalMember(m) && MeansMember(lib, m) == ParsePair(lib, text).value.0 && m.after == []
    ensures text == WrittenMember(m) + ParsePair(lib, text).value.1
    decreases |text|, 1
  {
    hide ParseValue, SkipWs, Written, Means, Legal, Json.Text, Quoted, UntilZero, PiecesBytes, LegalText;
    var before := Skipped(text);
    var t := SkipWs(text);
    var key := TextFrom(t);
    var k := Json.Text(t).value.1;
    var beforeColon := Skipped(k);
    var u := SkipWs(k);
    assert u == [58] + u[1..];
    var afterColon := Skipped(u[1..]);
    var w, value := ValueFrom(lib, SkipWs(u[1..]));
    m := Member(before, key, beforeColon, afterColon + w, value, []);
    MemberParts(before, Quoted(key), beforeColon, afterColon, w, Written(value), ParsePair(lib, text).value.1);
  }

  lemma MemberParts(a: Bytes, b: Bytes, c: Bytes, d: Bytes, e: Bytes, v: Bytes, rest: Bytes)
    ensures a + (b + (c + ([58] + (d + (e + (v + rest)))))) == a + (b + (c + ([58] + (d + e + (v + []))))) + rest
  {
  }

  lemma {:induction false} MembersFrom(lib: Libc, text: Bytes) returns (members: seq<Member>)
    requires ParsePairs(lib, text).Some?
    ensures |members| > 0 && LegalMembers(members) && MeansMembers(lib, members) == ParsePairs(lib, text).value.0
    ensures text == WrittenMembers(members) + ParsePairs(lib, text).value.1
    decreases |text|, 2
  {
    hide ParsePair, SkipWs, Means, Written, Legal;
    var m0 := MemberFrom(lib, text);
    var r := ParsePair(lib, text).value.1;
    var after := Skipped(r);
    var t := SkipWs(r);
    var m := m0.(after := after);
    AfterMember(m0, after);
    var rest := ParsePairs(lib, text).value.1;
    assert t == [t[0]] + t[1..];
    hide WrittenMember;
    if StartsWith(t, COMMA) {
      var more := MembersFrom(lib, t[1..]);
      members := [m] + more;
      assert members[1..] == more;
      MembersJoin(WrittenMember(m0), after, [44], WrittenMembers(more), rest);
    } else {
      members := [m];
      MembersJoin(WrittenMember(m0), after, [125], [], rest);
    }
  }

  lemma AfterMember(m: Member, after: Bytes)
    requires LegalMember(m) && m.after == [] && Blank(after)
    ensures WrittenMember(m.(after := after)) == WrittenMember(m) + after
  {
    hide Written, Quoted, LegalText, Legal;
  }

  lemma MembersJoin(a: Bytes, b: Bytes, c: Bytes, d: Bytes, rest: Bytes)
    ensures a + (b + (c + (d + rest))) == a + b + (c + d) + rest
  {
  }

  // ------------------------------------------------------------------ the grammar

  /** The text is one spelling of the value, with white space around it. */
  ghost predicate Spells(lib: Libc, text: Bytes, v: Value) {
    exists before: Bytes, s: Spelled, after: Bytes ::
      Blank(before) && Legal(s) && Blank(after) && text == before + (Written(s) + after) && Means(lib, s) == v
  }

  /** The parser accepts exactly the spellings of values, and each as the value it spells. */
  lemma ParseExact(lib: Libc, text: Bytes, v: Value)
    ensures Parse(lib, text) == Some(v) <==> Spells(lib, text, v)
  {
    hide ParseValue, Written, Means, Legal;
    if Parse(lib, text) == Some(v) {
      var before, s := ValueFrom(lib, text);
      var after := Skipped(ParseValue(lib, text).value.1);
      assert after == ParseValue(lib, text).value.1;
    }
    if Spells(lib, text, v) {
      var before: Bytes, s: Spelled, after: Bytes :|
        Blank(before) && Legal(s) && Blank(after) && text == before + (Written(s) + after) && Means(lib, s) == v;
      BlankValue(lib, before, Written(s) + after);
      ValueReads(lib, s, after);
      SkipBlank(after, []);
      assert after + [] == after;
    }
  }

  // ------------------------------------------------------------------ what is printed

  /** The one escape the printer uses for a byte: none, a letter, or four lower-case digits. */
  predicate CompactPiece(p: Piece) {
    match p
    case Plain(b) => b >= 32
    case Short(letter) => letter in [34, 92, 110, 114, 116]
    case Unicode(hex, utf8) =>
      && utf8 != [] && utf8[0] < 32 && utf8[0] != 9 && utf8[0] != 10 && utf8[0] != 13
      && forall i :: 0 <= i < |hex| ==> !hex[i].upper
  }

  predicate CompactText(pieces: seq<Piece>) {
    forall i :: 0 <= i < |pieces| ==> CompactPiece(pieces[i])
  }

  /** No white space anywhere, and the printer's escapes. */
  predicate Compact(s: Spelled)
    decreases s
  {
    match s
    case Text(pieces) => CompactText(pieces)
    case Array(blank, items) => blank == [] && CompactItems(items)
    case Object(blank, members) => blank == [] && CompactMembers(members)
    case _ => true
  }

  predicate CompactItems(items: seq<Item>)
    decreases items
  {
    |items| > 0 ==>
      items[0].before == [] && items[0].after == [] && Compact(items[0].value) && CompactItems(items[1..])
  }

  predicate CompactMember(m: Member)
    decreases m
  {
    && m.before == [] && m.beforeColon == [] && m.afterColon == [] && m.after == []
    && CompactText(m.key) && Compact(m.value)
  }

  predicate CompactMembers(members: seq<Member>)
    decreases members
  {
    |members| > 0 ==> CompactMember(members[0]) && CompactMembers(members[1..])
  }

  lemma EscapePiece(b: byte) returns (p: Piece)
    ensures LegalPiece(p) && CompactPiece(p) && PieceText(p) == Escape(b) && PieceBytes(p) == [b]
  {
    if b == 34 || b == 92 {
      p := Short(b);
    } else if b == 10 || b == 13 || b == 9 {
      p := Short(if b == 10 then 110 else if b == 13 then 114 else 116);
    } else if b >= 32 {
      p := Plain(b);
    } else {
      var high, low := b as int / 16, b as int % 16;
      p := Unicode([Nibble(0, false), Nibble(0, false), Nibble(high, false), Nibble(low, false)], [b]);
    }
  }

  lemma {:induction false} EscapedPieces(s: Bytes) returns (pieces: seq<Piece>)
    ensures LegalText(pieces) && CompactText(pieces) && PiecesText(pieces) == Escaped(s) && PiecesBytes(pieces) == s
  {
    pieces := [];
    if |s| > 0 {
      hide LegalPiece, CompactPiece, PieceText, PieceBytes, Escape;
      var p := EscapePiece(s[0]);
      var more := EscapedPieces(s[1..]);
      pieces := PieceFirst(p, more);
      PieceFirstCompact(p, more, pieces);
      assert s == [s[0]] + s[1..];
    }
  }

  lemma PieceFirstCompact(p: Piece, more: seq<Piece>, pieces: seq<Piece>)
    requires LegalPiece(p) && LegalText(more) && LegalText(pieces)
    requires CompactPiece(p) && CompactText(more) && pieces == [p] + more
    ensures CompactText(pieces)
  {
    hide CompactPiece, LegalPiece;
  }

  lemma {:induction false} UntilZeroWhole(s: Bytes)
    requires 0 !in s
    ensures UntilZero(s) == s
  {
  }

  lemma QuotedPieces(s: Bytes) returns (pieces: seq<Piece>)
    requires 0 !in s
    ensures LegalText(pieces) && CompactText(pieces) && Quoted(pieces) == Json.Quoted(s)
    ensures UntilZero(PiecesBytes(pieces)) == s
  {
    pieces := EscapedPieces(s);
    UntilZeroWhole(s);
    hide PiecesText, Escaped;
    assert [34] + (Escaped(s) + [34]) == [34] + Escaped(s) + [34];
  }

  /** What is printed is the compact spelling of the value, up to the form the C library gives a number. */
  lemma {:induction false} PrintCompact(lib: Libc, v: Value) returns (s: Spelled)
    requires ZeroFree(Json.Texts(v)) && Printed(lib, Json.Numbers(v))
    ensures Legal(s) && Compact(s) && Written(s) == Print(lib, v) && Means(lib, s) == Reread(lib, v)
    decreases v, 0
  {
    match v
    case Null => s := Spelled.Null;
    case Bool(b) => s := Spelled.Bool(b);
    case Number(d) =>
      s := NumberFrom(PrintNumber(lib, d));
      assert Written(s) + [] == Written(s);
    case String(x) =>
      var pieces := QuotedPieces(x);
      s := Text(pieces);
    case Array(items) =>
      hide Print;
      if |items| == 0 {
        s := Spelled.Array([], []);
        PrintEmpty(lib);
      } else {
        var parts := ItemsCompact(lib, items);
        s := Spelled.Array([], parts);
        PrintBrackets(lib, items, []);
      }
    case Object(pairs) =>
      hide Print;
      if |pairs| == 0 {
        s := Spelled.Object([], []);
        PrintEmpty(lib);
      } else {
        var parts := MembersCompact(lib, pairs);
        s := Spelled.Object([], parts);
        PrintBrackets(lib, [], pairs);
      }
  }

  lemma PrintEmpty(lib: Libc)
    ensures Print(lib, Value.Array([])) == [91, 93] && Print(lib, Value.Object([])) == [123, 125]
  {
  }

  lemma PrintBrackets(lib: Libc, items: seq<Value>, pairs: seq<Pair>)
    ensures Print(lib, Value.Array(items)) == [91] + (PrintItems(lib, items) + [93])
    ensures Print(lib, Value.Object(pairs)) == [123] + (PrintPairs(lib, pairs) + [125])
  {
    hide PrintItems, PrintPairs;
  }

  lemma {:induction false} ItemsCompact(lib: Libc, items: seq<Value>) returns (parts: seq<Item>)
    requires |items| > 0 && ZeroFree(TextsIn(items)) && Printed(lib, NumbersIn(items))
    ensures |parts| > 0 && LegalItems(parts) && CompactItems(parts)
    ensures WrittenItems(parts) == PrintItems(lib, items) + [93] && MeansItems(lib, parts) == RereadItems(lib, items)
    decreases items, 1
  {
    hide Print, Written, Means, Reread, Legal, Compact;
    var s := PrintCompact(lib, items[0]);
    var part := Item([], s, []);
    if |items| == 1 {
      parts := [part];
      assert RereadItems(lib, items) == [Reread(lib, items[0])];
    } else {
      var more := ItemsCompact(lib, items[1..]);
      parts := [part] + more;
      assert parts[1..] == more;
      CommaJoins(Print(lib, items[0]), PrintItems(lib, items[1..]), [93]);
    }
  }

  lemma CommaJoins(a: Bytes, b: Bytes, close: Bytes)
    ensures [] + (a + ([] + ([44] + (b + close)))) == a + [44] + b + close
    ensures a + ([44] + (b + close)) == a + [44] + b + close
  {
  }

  lemma MemberCompact(lib: Libc, p: Pair, s: Spelled) returns (m: Member)
    requires 0 !in p.key && Legal(s) && Compact(s) && Written(s) == Print(lib, p.value)
    requires Means(lib, s) == Reread(lib, p.value)
    ensures LegalMember(m) && CompactMember(m) && WrittenMember(m) == PrintPair(lib, p)
    ensures MeansMember(lib, m) == RereadPair(lib, p)
  {
    hide Print, Written, Means, Reread, Legal, Compact, Quoted, Json.Quoted;
    var key := QuotedPieces(p.key);
    m := Member([], key, [], [], s, []);
    var q, v := Json.Quoted(p.key), Print(lib, p.value);
    assert [] + (q + ([] + ([58] + ([] + (v + []))))) == q + [58] + v;
  }

  lemma {:induction false} MembersCompact(lib: Libc, pairs: seq<Pair>) returns (parts: seq<Member>)
    requires |pairs| > 0 && ZeroFree(TextsInPairs(pairs)) && Printed(lib, NumbersInPairs(pairs))
    ensures |parts| > 0 && LegalMembers(parts) && CompactMembers(parts)
    ensures WrittenMembers(parts) == PrintPairs(lib, pairs) + [125]
    ensures MeansMembers(lib, parts) == RereadPairs(lib, pairs)
    decreases pairs, 1
  {
    hide Print, Written, Means, Reread, Legal, Compact, PrintPair, WrittenMember, MeansMember, RereadPair;
    var s := PrintCompact(lib, pairs[0].value);
    var part := MemberCompact(lib, pairs[0], s);
    if |pairs| == 1 {
      parts := [part];
      assert RereadPairs(lib, pairs) == [RereadPair(lib, pairs[0])];
    } else {
      var more := MembersCompact(lib, pairs[1..]);
      parts := [part] + more;
      assert parts[1..] == more;
      CommaJoins(PrintPair(lib, pairs[0]), PrintPairs(lib, pairs[1..]), [125]);
    }
  }
}
