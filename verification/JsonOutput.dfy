/**
 The serializer of src/common/json.c: a string buffer that doubles when full, and
 the recursive printer that appends to it. Proved against `Json.Print`.
 */
module JsonOutput {
  import opened Numerals
  import opened Json

  class StrBuf {
    var data: array<byte>
    var len: nat

    /** There is always room for the terminating zero, except before the first append. */
    ghost predicate Valid()
      reads this
    {
      len < data.Length || (len == 0 && data.Length == 0)
    }

    ghost function Contents(): Bytes
      requires Valid()
      reads this, data
    {
      data[..len]
    }

    constructor ()
      ensures Valid() && Contents() == [] && fresh(data)
    {
      data := new byte[0];
      len := 0;
    }

    /** `sb_reserve` */
    method Reserve(additional: nat)
      requires Valid()
      modifies this`data
      ensures len + additional + 1 <= data.Length && Contents() == old(Contents())
      ensures data == old(data) || fresh(data)
    {
      if len + additional + 1 <= data.Length {
        return;
      }
      var cap := if data.Length == 0 then 64 else data.Length;
      while cap < len + additional + 1
        invariant cap > 0
        decreases len + additional + 1 - cap
      {
        cap := cap * 2;
      }
      var grown := new byte[cap](_ => 0);
      forall i | 0 <= i < len {
        grown[i] := data[i];
      }
      data := grown;
    }

    /** `sb_append` */
    method Append(s: Bytes)
      requires Valid()
      modifies this, data
      ensures Valid() && Contents() == old(Contents()) + s && (data == old(data) || fresh(data))
    {
      Reserve(|s|);
      ghost var before := data[..len];
      var at := len;
      forall i | 0 <= i < |s| {
        data[at + i] := s[i];
      }
      len := len + |s|;
      data[len] := 0;
      assert data[..at] == before && data[at..len] == s;
    }

    /** `sb_append_escaped_string` */
    method AppendEscaped(s: Bytes)
      requires Valid()
      modifies this, data
      ensures Valid() && Contents() == old(Contents()) + Quoted(s) && (data == old(data) || fresh(data))
    {
      hide Escape, Escaped;
      ghost var start := Contents() + [QUOTE];
      Append([QUOTE]);
      EscapedEnds(s);
      assert s[0..] == s && start + Escaped(s) == start + Escaped(s[0..]);
      for i := 0 to |s|
        invariant Valid() && (data == old(data) || fresh(data))
        invariant Contents() + Escaped(s[i..]) == start + Escaped(s)
      {
        EscapedStep(s, i);
        ghost var done := Contents();
        Append(Escape(s[i]));
        Assoc(done, Escape(s[i]), Escaped(s[i + 1..]));
      }
      Append([QUOTE]);
      QuotedIs(old(Contents()), s);
    }

    /** `serialize_value` */
    method Serialize(lib: Libc, v: Value)
      requires Valid()
      modifies this, data
      ensures Valid() && Contents() == old(Contents()) + Print(lib, v) && (data == old(data) || fresh(data))
      decreases v
    {
      hide Quoted, PrintNumber, PrintItems, PrintPairs;
      match v {
        case Null => Append(NULL);
        case Bool(b) => Append(if b then TRUE else FALSE);
        case Number(d) => Append(PrintNumber(lib, d));
        case String(s) => AppendEscaped(s);
        case Array(items) =>
          Append([LBRACKET]);
          SerializeItems(lib, items);
          Append([RBRACKET]);
          Bracketed(old(Contents()), LBRACKET, PrintItems(lib, items), RBRACKET);
        case Object(pairs) =>
          Append([LBRACE]);
          SerializePairs(lib, pairs);
          Append([RBRACE]);
          Bracketed(old(Contents()), LBRACE, PrintPairs(lib, pairs), RBRACE);
      }
    }

    method SerializeItems(lib: Libc, items: seq<Value>)
      requires Valid()
      modifies this, data
      ensures Valid() && Contents() == old(Contents()) + PrintItems(lib, items)
      ensures data == old(data) || fresh(data)
      decreases items
    {
      hide Print, PrintItems, Tail;
      ghost var start := Contents();
      TailIsItems(lib, items);
      assert items[0..] == items;
      for i := 0 to |items|
        invariant Valid() && (data == old(data) || fresh(data))
        invariant Contents() + Tail(lib, items[i..], i == 0) == start + PrintItems(lib, items)
      {
        TailStep(lib, items, i);
        ghost var done := Contents();
        if i > 0 {
          Append([COMMA]);
        }
        Serialize(lib, items[i]);
        TailJoins(done, i > 0, Print(lib, items[i]), Tail(lib, items[i + 1..], false));
      }
      TailEnd(lib, items);
    }

    method SerializePair(lib: Libc, p: Pair)
      requires Valid()
      modifies this, data
      ensures Valid() && Contents() == old(Contents()) + PrintPair(lib, p)
      ensures data == old(data) || fresh(data)
      decreases p
    {
      hide Print, Quoted;
      AppendEscaped(p.key);
      Append([COLON]);
      Serialize(lib, p.value);
    }

    method SerializePairs(lib: Libc, pairs: seq<Pair>)
      requires Valid()
      modifies this, data
      ensures Valid() && Contents() == old(Contents()) + PrintPairs(lib, pairs)
      ensures data == old(data) || fresh(data)
      decreases pairs
    {
      hide Print, Quoted, PrintPairs, PairTail;
      ghost var start := Contents();
      TailIsPairs(lib, pairs);
      assert pairs[0..] == pairs;
      for i := 0 to |pairs|
        invariant Valid() && (data == old(data) || fresh(data))
        invariant Contents() + PairTail(lib, pairs[i..], i == 0) == start + PrintPairs(lib, pairs)
      {
        PairTailStep(lib, pairs, i);
        ghost var done := Contents();
        if i > 0 {
          Append([COMMA]);
        }
        SerializePair(lib, pairs[i]);
        TailJoins(done, i > 0, PrintPair(lib, pairs[i]), PairTail(lib, pairs[i + 1..], false));
      }
      PairTailEnd(lib, pairs);
    }
  }

  /** `bm_json_serialize` */
  method SerializeText(lib: Libc, v: Value) returns (text: Bytes)
    ensures text == Print(lib, v)
  {
    var b := new StrBuf();
    b.Serialize(lib, v);
    text := b.data[..b.len];
  }

  // --------------------------------------------------------------- what is still to print

  lemma EscapedStep(s: Bytes, i: nat)
    requires i < |s|
    ensures Escaped(s[i..]) == Escape(s[i]) + Escaped(s[i + 1..])
  {
    assert s[i..][1..] == s[i + 1..];
  }

  lemma EscapedEnds(s: Bytes)
    ensures Escaped(s[|s|..]) == []
  {
  }

  lemma QuotedIs(front: Bytes, s: Bytes)
    ensures front + Quoted(s) == front + [QUOTE] + Escaped(s) + [QUOTE]
  {
  }

  lemma Bracketed(front: Bytes, left: byte, inner: Bytes, right: byte)
    ensures front + [left] + inner + [right] == front + ([left] + inner + [right])
  {
  }

  /** The items from some index on, each after its comma unless it is the first. */
  function Tail(lib: Libc, items: seq<Value>, first: bool): Bytes
    decreases items
  {
    if |items| == 0 then []
    else (if first then [] else [COMMA]) + Print(lib, items[0]) + Tail(lib, items[1..], false)
  }

  function PairTail(lib: Libc, pairs: seq<Pair>, first: bool): Bytes
    decreases pairs
  {
    if |pairs| == 0 then []
    else (if first then [] else [COMMA]) + PrintPair(lib, pairs[0]) + PairTail(lib, pairs[1..], false)
  }

  lemma {:induction false} TailIsItems(lib: Libc, items: seq<Value>)
    ensures Tail(lib, items, true) == PrintItems(lib, items)
    ensures |items| > 0 ==> Tail(lib, items, false) == [COMMA] + PrintItems(lib, items)
  {
    hide Print;
    if |items| > 0 {
      TailIsItems(lib, items[1..]);
      Assoc([COMMA], Print(lib, items[0]), Tail(lib, items[1..], false));
      if |items| > 1 {
        Assoc(Print(lib, items[0]), [COMMA], PrintItems(lib, items[1..]));
      }
    }
  }

  lemma {:induction false} TailIsPairs(lib: Libc, pairs: seq<Pair>)
    ensures PairTail(lib, pairs, true) == PrintPairs(lib, pairs)
    ensures |pairs| > 0 ==> PairTail(lib, pairs, false) == [COMMA] + PrintPairs(lib, pairs)
  {
    hide PrintPair;
    if |pairs| > 0 {
      TailIsPairs(lib, pairs[1..]);
      Assoc([COMMA], PrintPair(lib, pairs[0]), PairTail(lib, pairs[1..], false));
      if |pairs| > 1 {
        Assoc(PrintPair(lib, pairs[0]), [COMMA], PrintPairs(lib, pairs[1..]));
      }
    }
  }

  lemma TailStep(lib: Libc, items: seq<Value>, i: nat)
    requires i < |items|
    ensures Tail(lib, items[i..], i == 0) ==
            (if i > 0 then [COMMA] else []) + Print(lib, items[i]) + Tail(lib, items[i + 1..], false)
  {
    hide Print;
    assert items[i..][1..] == items[i + 1..];
  }

  lemma PairTailStep(lib: Libc, pairs: seq<Pair>, i: nat)
    requires i < |pairs|
    ensures PairTail(lib, pairs[i..], i == 0) ==
            (if i > 0 then [COMMA] else []) + PrintPair(lib, pairs[i]) + PairTail(lib, pairs[i + 1..], false)
  {
    hide PrintPair;
    assert pairs[i..][1..] == pairs[i + 1..];
  }

  lemma TailEnd(lib: Libc, items: seq<Value>)
    ensures Tail(lib, items[|items|..], |items| == 0) == []
  {
  }

  lemma PairTailEnd(lib: Libc, pairs: seq<Pair>)
    ensures PairTail(lib, pairs[|pairs|..], |pairs| == 0) == []
  {
  }

  lemma TailJoins(done: Bytes, comma: bool, x: Bytes, rest: Bytes)
    ensures (if comma then done + [COMMA] else done) + x + rest ==
            done + ((if comma then [COMMA] else []) + x + rest)
  {
  }
}
