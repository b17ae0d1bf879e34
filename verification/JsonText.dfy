/**
 The parser and serializer of src/common/json.c as they run: a cursor that advances
 over the text, and a growing output buffer. Proved against `Json`.
 */
module JsonText {
  import opened Numerals
  import opened Json

  class Cursor {
    const text: Bytes
    var p: nat

    ghost predicate Valid()
      reads this
    {
      p <= |text|
    }

    ghost function Rest(): Bytes
      requires Valid()
      reads this
    {
      text[p..]
    }

    constructor (text: Bytes)
      ensures Valid() && this.text == text && p == 0
    {
      this.text := text;
      p := 0;
    }

    /** `skip_ws` */
    method SkipSpace()
      requires Valid()
      modifies this`p
      ensures Valid() && Rest() == SkipWs(old(Rest())) && old(p) <= p
    {
      while p < |text| && IsWs(text[p])
        invariant Valid() && old(p) <= p && SkipWs(Rest()) == SkipWs(old(Rest()))
      {
        assert text[p..][1..] == text[p + 1..];
        p := p + 1;
      }
    }

    method Digits()
      requires Valid()
      modifies this`p
      ensures Valid() && Rest() == SkipDigits(old(Rest())) && old(p) <= p
    {
      while p < |text| && IsDigit(text[p])
        invariant Valid() && old(p) <= p && SkipDigits(Rest()) == SkipDigits(old(Rest()))
      {
        assert text[p..][1..] == text[p + 1..];
        p := p + 1;
      }
    }

    method SomeDigits() returns (ok: bool)
      requires Valid()
      modifies this`p
      ensures Valid() && old(p) <= p && ok == Digits1(old(Rest())).Some?
      ensures ok ==> Some(Rest()) == Digits1(old(Rest())) && old(p) < p
    {
      if p >= |text| || !IsDigit(text[p]) {
        return false;
      }
      assert text[p..][1..] == text[p + 1..];
      p := p + 1;
      Digits();
      return true;
    }

    method At(b: byte) returns (yes: bool)
      requires Valid()
      ensures yes == StartsWith(Rest(), b) && (yes ==> p < |text| && text[p + 1..] == Rest()[1..])
    {
      yes := p < |text| && text[p] == b;
    }

    method ReadFraction() returns (ok: bool)
      requires Valid()
      modifies this`p
      ensures Valid() && old(p) <= p && ok == Fraction(old(Rest())).Some?
      ensures ok ==> Some(Rest()) == Fraction(old(Rest()))
    {
      hide Digits1;
      var found := At(DOT);
      if !found {
        return true;
      }
      p := p + 1;
      ok := SomeDigits();
    }

    method ReadSign()
      requires Valid()
      modifies this`p
      ensures Valid() && old(p) <= p && Rest() == SkipSign(old(Rest()))
    {
      var sign := At(43);
      if !sign {
        sign := At(MINUS);
      }
      if sign {
        p := p + 1;
      }
    }

    method ReadExponent() returns (ok: bool)
      requires Valid()
      modifies this`p
      ensures Valid() && old(p) <= p && ok == Exponent(old(Rest())).Some?
      ensures ok ==> Some(Rest()) == Exponent(old(Rest()))
    {
      hide Digits1, SkipSign;
      var found := At(101);
      if !found {
        found := At(69);
      }
      if !found {
        return true;
      }
      p := p + 1;
      ReadSign();
      ok := SomeDigits();
    }

    /** `parse_number` */
    method ReadNumber(lib: Libc) returns (r: Option<Value>)
      requires Valid()
      modifies this`p
      ensures Valid() && old(p) <= p
      ensures var rest := AfterNumber(old(Rest()));
              if rest.None? then r.None?
              else Rest() == rest.value && r == Some(Number(lib.strtod(old(Rest())[..|old(Rest())| - |Rest()|])))
    {
      hide Digits1, Fraction, Exponent;
      var start := p;
      var found := At(MINUS);
      if found {
        p := p + 1;
      }
      found := SomeDigits();
      if !found {
        return None;
      }
      found := ReadFraction();
      if !found {
        return None;
      }
      found := ReadExponent();
      if !found {
        return None;
      }
      assert text[start..][..p - start] == text[start..p];
      r := Some(Number(lib.strtod(text[start..p])));
    }

    /** One character of a string body. */
    method ReadChar() returns (r: Option<Bytes>)
      requires Valid() && p < |text|
      modifies this`p
      ensures Valid() && old(p) <= p
      ensures var c := Char(old(Rest()));
              if c.None? then r.None? else r == Some(c.value.0) && p == old(p) + c.value.1
    {
      if text[p] != BACKSLASH {
        r := Some([text[p]]);
        p := p + 1;
        return;
      }
      ghost var t := Rest();
      p := p + 1;
      if p >= |text| {
        return None;
      }
      var esc := text[p];
      assert t[1] == esc;
      p := p + 1;
      var plain := Unescape(esc);
      if plain.Some? {
        return Some([plain.value]);
      }
      if esc != 117 {
        return None;
      }
      assert t[2..] == text[p..];
      var cp := ReadHex4();
      if cp.None? {
        return None;
      }
      r := Some(Utf8(cp.value));
    }

    method ReadHex4() returns (cp: Option<nat>)
      requires Valid()
      modifies this`p
      ensures Valid() && cp == Hex4(old(Rest())) && p == old(p) + if cp.Some? then 4 else 0
    {
      if |text| - p < 4 {
        return None;
      }
      ghost var t := Rest();
      assert t[0] == text[p] && t[1] == text[p + 1] && t[2] == text[p + 2] && t[3] == text[p + 3];
      var a, b, c, d := Hex(text[p]), Hex(text[p + 1]), Hex(text[p + 2]), Hex(text[p + 3]);
      if a < 0 || b < 0 || c < 0 || d < 0 {
        return None;
      }
      p := p + 4;
      cp := Hex4(text[p - 4..]);
    }

    /** `parse_string_raw` */
    method ReadText() returns (r: Option<Bytes>)
      requires Valid()
      modifies this`p
      ensures Valid() && old(p) <= p
      ensures var t := Text(old(Rest()));
              if t.None? then r.None? else r == Some(t.value.0) && Rest() == t.value.1
    {
      hide Body, Char;
      var quoted := At(QUOTE);
      if !quoted {
        return None;
      }
      p := p + 1;
      ghost var body := Body(Rest());
      var out: Bytes := [];
      PrefixedNone(body);
      while p < |text| && text[p] != QUOTE
        invariant Valid() && old(p) < p
        invariant body == Prefixed(out, Body(Rest()))
        decreases |text| - p
      {
        ghost var t := Rest();
        BodyStep(t, out);
        var c := ReadChar();
        if c.None? {
          return None;
        }
        assert t[Char(t).value.1..] == Rest();
        out := out + c.value;
      }
      BodyEnd(Rest(), out);
      if p >= |text| {
        return None;
      }
      assert Rest()[1..] == text[p + 1..];
      p := p + 1;
      r := Some(CString(out));
    }

    method ReadLiteral(word: Bytes, v: Value) returns (r: Option<Value>)
      requires Valid() && |word| > 0
      modifies this`p
      ensures Valid() && old(p) <= p && Matches(r, Literal(old(Rest()), word, v), Rest())
    {
      if |text| - p < |word| || text[p..p + |word|] != word {
        return None;
      }
      assert text[p..][..|word|] == word;
      p := p + |word|;
      r := Some(v);
    }

    /** `parse_array` */
    method ReadArray(lib: Libc) returns (r: Option<Value>)
      requires Valid() && StartsWith(Rest(), LBRACKET)
      modifies this`p
      ensures Valid() && old(p) <= p && Matches(r, ParseValue(lib, old(Rest())), Rest())
      decreases |text| - p, 0
    {
      hide ParseItems, SkipWs, ParseValue;
      ArrayShape(lib, Rest());
      assert text[p + 1..] == Rest()[1..];
      p := p + 1;
      SkipsTwice(lib, Rest());
      SkipSpace();
      var closed := At(RBRACKET);
      if closed {
        p := p + 1;
        return Some(Array([]));
      }
      var items := ReadItems(lib);
      r := if items.None? then None else Some(Array(items.value));
    }

    /** The loop over the items, up to the closing bracket. */
    method ReadItems(lib: Libc) returns (r: Option<seq<Value>>)
      requires Valid()
      modifies this`p
      ensures Valid() && old(p) <= p
      ensures var s := ParseItems(lib, old(Rest()));
              if s.None? then r.None? else r == Some(s.value.0) && Rest() == s.value.1
      decreases |text| - p, 2
    {
      hide ParseItems, SkipWs, ParseValue;
      ghost var parsed := ParseItems(lib, Rest());
      var items: seq<Value> := [];
      GluedNone(parsed);
      while true
        invariant Valid() && old(p) <= p
        invariant parsed == Glued(items, ParseItems(lib, Rest()))
        decreases |text| - p
      {
        ItemsStep(lib, Rest(), items);
        SkipSpace();
        var item := ReadValue(lib);
        if item.None? {
          return None;
        }
        items := items + [item.value];
        SkipSpace();
        var more := At(COMMA);
        if more {
          p := p + 1;
          continue;
        }
        var closed := At(RBRACKET);
        if closed {
          p := p + 1;
          return Some(items);
        }
        return None;
      }
    }

    /** The members of an object, one at a time. */
    method ReadPair(lib: Libc) returns (r: Option<Pair>)
      requires Valid()
      modifies this`p
      ensures Valid() && old(p) <= p
      ensures var s := ParsePair(lib, old(Rest()));
              if s.None? then r.None? else r == Some(s.value.0) && Rest() == s.value.1 && old(p) < p
      decreases |text| - p, 2
    {
      hide ParseValue, SkipWs, Text;
      SkipSpace();
      var key := ReadText();
      if key.None? {
        return None;
      }
      SkipSpace();
      var colon := At(COLON);
      if !colon {
        return None;
      }
      p := p + 1;
      SkipSpace();
      var value := ReadValue(lib);
      if value.None? {
        return None;
      }
      r := Some(Pair(key.value, value.value));
    }

    /** `parse_object` */
    method ReadObject(lib: Libc) returns (r: Option<Value>)
      requires Valid() && StartsWith(Rest(), LBRACE)
      modifies this`p
      ensures Valid() && old(p) <= p && Matches(r, ParseValue(lib, old(Rest())), Rest())
      decreases |text| - p, 0
    {
      hide ParsePairs, SkipWs, ParseValue;
      ObjectShape(lib, Rest());
      assert text[p + 1..] == Rest()[1..];
      p := p + 1;
      SkipsTwicePairs(lib, Rest());
      SkipSpace();
      var closed := At(RBRACE);
      if closed {
        p := p + 1;
        return Some(Object([]));
      }
      var pairs := ReadPairs(lib);
      r := if pairs.None? then None else Some(Object(pairs.value));
    }

    /** The loop over the members, up to the closing brace. */
    method ReadPairs(lib: Libc) returns (r: Option<seq<Pair>>)
      requires Valid()
      modifies this`p
      ensures Valid() && old(p) <= p
      ensures var s := ParsePairs(lib, old(Rest()));
              if s.None? then r.None? else r == Some(s.value.0) && Rest() == s.value.1
      decreases |text| - p, 3
    {
      hide ParsePairs, SkipWs, ParsePair;
      ghost var parsed := ParsePairs(lib, Rest());
      var pairs: seq<Pair> := [];
      GluedNone(parsed);
      while true
        invariant Valid() && old(p) <= p
        invariant parsed == Glued(pairs, ParsePairs(lib, Rest()))
        decreases |text| - p
      {
        PairsStep(lib, Rest(), pairs);
        var pair := ReadPair(lib);
        if pair.None? {
          return None;
        }
        pairs := pairs + [pair.value];
        SkipSpace();
        var more := At(COMMA);
        if more {
          p := p + 1;
          continue;
        }
        var closed := At(RBRACE);
        if closed {
          p := p + 1;
          return Some(pairs);
        }
        return None;
      }
    }

    /** `parse_value` */
    method ReadValue(lib: Libc) returns (r: Option<Value>)
      requires Valid()
      modifies this`p
      ensures Valid() && old(p) <= p && Matches(r, ParseValue(lib, old(Rest())), Rest())
      decreases |text| - p, 1
    {
      SkipsOnce(lib, Rest());
      hide SkipWs, ParseItems, ParsePairs, Text, AfterNumber;
      SkipSpace();
      if p >= |text| {
        return None;
      }
      ghost var t := Rest();
      var b := text[p];
      assert t[0] == b;
      if b == QUOTE {
        var s := ReadText();
        r := if s.None? then None else Some(String(s.value));
      } else if b == LBRACKET {
        r := ReadArray(lib);
      } else if b == LBRACE {
        r := ReadObject(lib);
      } else if b == 116 {
        r := ReadLiteral(TRUE, Bool(true));
      } else if b == 102 {
        r := ReadLiteral(FALSE, Bool(false));
      } else if b == 110 {
        r := ReadLiteral(NULL, Null);
      } else {
        r := ReadNumber(lib);
      }
    }
  }

  /** What a reading method returns, against what the grammar says. */
  ghost predicate Matches(r: Option<Value>, spec: Option<(Value, Bytes)>, rest: Bytes) {
    if spec.None? then r.None? else r == Some(spec.value.0) && rest == spec.value.1
  }

  /** `bm_json_parse` */
  method ParseText(lib: Libc, text: Bytes) returns (r: Option<Value>)
    ensures r == Parse(lib, text)
  {
    var c := new Cursor(text);
    assert text[0..] == text;
    r := c.ReadValue(lib);
    if r.None? {
      return;
    }
    c.SkipSpace();
    if c.p != |text| {
      return None;
    }
  }

  /** A body whose first bytes are known already. */
  function Prefixed(out: Bytes, body: Option<(Bytes, Bytes)>): Option<(Bytes, Bytes)> {
    if body.None? then None else Some((out + body.value.0, body.value.1))
  }

  lemma PrefixedNone(body: Option<(Bytes, Bytes)>)
    ensures Prefixed([], body) == body
  {
    if body.Some? {
      assert [] + body.value.0 == body.value.0;
    }
  }

  lemma BodyEnd(t: Bytes, out: Bytes)
    requires |t| == 0 || t[0] == QUOTE
    ensures Prefixed(out, Body(t)) == if |t| == 0 then None else Some((out, t[1..]))
  {
    assert out + [] == out;
  }

  lemma BodyNext(t: Bytes)
    requires |t| > 0 && t[0] != QUOTE
    ensures Body(t) == if Char(t).None? then None else Prefixed(Char(t).value.0, Body(t[Char(t).value.1..]))
  {
    hide Char;
  }

  lemma BodyStep(t: Bytes, out: Bytes)
    requires |t| > 0 && t[0] != QUOTE
    ensures var c := Char(t);
            Prefixed(out, Body(t)) ==
            if c.None? then None else Prefixed(out + c.value.0, Body(t[c.value.1..]))
  {
    BodyNext(t);
    hide Char, Body;
    var c := Char(t);
    if c.Some? && Body(t[c.value.1..]).Some? {
      Assoc(out, c.value.0, Body(t[c.value.1..]).value.0);
    }
  }

  // ------------------------------------------------------------- grammar, step by step

  lemma {:induction false} SkipIdempotent(t: Bytes)
    ensures SkipWs(SkipWs(t)) == SkipWs(t)
  {
    if |t| > 0 && IsWs(t[0]) {
      SkipIdempotent(t[1..]);
    }
  }

  lemma SkipsOnce(lib: Libc, t: Bytes)
    ensures ParseValue(lib, SkipWs(t)) == ParseValue(lib, t) && SkipWs(SkipWs(t)) == SkipWs(t)
  {
    SkipIdempotent(t);
  }

  lemma SkipsTwice(lib: Libc, t: Bytes)
    ensures ParseItems(lib, SkipWs(t)) == ParseItems(lib, t)
  {
    SkipIdempotent(t);
  }

  lemma SkipsTwicePairs(lib: Libc, t: Bytes)
    ensures ParsePairs(lib, SkipWs(t)) == ParsePairs(lib, t)
  {
    SkipIdempotent(t);
    assert ParsePair(lib, SkipWs(t)) == ParsePair(lib, t);
  }

  lemma ArrayShape(lib: Libc, t: Bytes)
    requires StartsWith(t, LBRACKET)
    ensures ParseValue(lib, t) ==
            if StartsWith(SkipWs(t[1..]), RBRACKET) then Some((Array([]), SkipWs(t[1..])[1..]))
            else
              var items := ParseItems(lib, t[1..]);
              if items.None? then None else Some((Array(items.value.0), items.value.1))
  {
    hide ParseItems;
    assert SkipWs(t) == t;
  }

  lemma ObjectShape(lib: Libc, t: Bytes)
    requires StartsWith(t, LBRACE)
    ensures ParseValue(lib, t) ==
            if StartsWith(SkipWs(t[1..]), RBRACE) then Some((Object([]), SkipWs(t[1..])[1..]))
            else
              var pairs := ParsePairs(lib, t[1..]);
              if pairs.None? then None else Some((Object(pairs.value.0), pairs.value.1))
  {
    hide ParsePairs;
    assert SkipWs(t) == t;
  }

  /** A list whose first members are known already. */
  function Glued<T>(front: seq<T>, more: Option<(seq<T>, Bytes)>): Option<(seq<T>, Bytes)> {
    if more.None? then None else Some((front + more.value.0, more.value.1))
  }

  lemma GluedNone<T>(more: Option<(seq<T>, Bytes)>)
    ensures Glued([], more) == more
  {
    if more.Some? {
      assert [] + more.value.0 == more.value.0;
    }
  }

  lemma GluedMore<T>(front: seq<T>, x: T, more: Option<(seq<T>, Bytes)>)
    ensures Glued(front, if more.None? then None else Some(([x] + more.value.0, more.value.1))) ==
            Glued(front + [x], more)
  {
    if more.Some? {
      assert front + ([x] + more.value.0) == front + [x] + more.value.0;
    }
  }

  lemma ItemsStep(lib: Libc, t: Bytes, items: seq<Value>)
    ensures var item := ParseValue(lib, SkipWs(t));
            Glued(items, ParseItems(lib, t)) ==
            if item.None? then None
            else
              var u := SkipWs(item.value.1);
              if StartsWith(u, COMMA) then Glued(items + [item.value.0], ParseItems(lib, u[1..]))
              else if StartsWith(u, RBRACKET) then Some((items + [item.value.0], u[1..]))
              else None
  {
    hide ParseValue, SkipWs;
    var item := ParseValue(lib, SkipWs(t));
    if item.Some? {
      var u := SkipWs(item.value.1);
      if StartsWith(u, COMMA) {
        GluedMore(items, item.value.0, ParseItems(lib, u[1..]));
      }
    }
  }

  lemma PairsStep(lib: Libc, t: Bytes, pairs: seq<Pair>)
    ensures var pair := ParsePair(lib, t);
            Glued(pairs, ParsePairs(lib, t)) ==
            if pair.None? then None
            else
              var u := SkipWs(pair.value.1);
              if StartsWith(u, COMMA) then Glued(pairs + [pair.value.0], ParsePairs(lib, u[1..]))
              else if StartsWith(u, RBRACE) then Some((pairs + [pair.value.0], u[1..]))
              else None
  {
    hide ParsePair, SkipWs;
    var pair := ParsePair(lib, t);
    if pair.Some? {
      var u := SkipWs(pair.value.1);
      if StartsWith(u, COMMA) {
        GluedMore(pairs, pair.value.0, ParsePairs(lib, u[1..]));
      }
    }
  }
}
