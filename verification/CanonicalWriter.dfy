/**
 The writer of pkg/compliance/didit/webhook.go: loops that append to one shared
 byte buffer, proved to append the UTF-8 of `Canonical.Print`.
 */
module CanonicalWriter {
  import opened Json
  import opened Canonical
  import opened CanonicalForm
  import Utf8

  /** bytes.Buffer, as far as the writer uses it: the runes written so far.
      WriteRune appends a rune's UTF-8, so the bytes held are the UTF-8 of the
      text (Utf8.EncodeConcat). */
  class Buffer {
    var text: string

    constructor ()
      ensures text == ""
    {
      text := "";
    }

    method WriteText(s: string)
      modifies this
      ensures text == old(text) + s
    {
      text := text + s;
    }

    method Bytes() returns (bs: seq<Utf8.byte>)
      ensures bs == Utf8.Encode(text)
    {
      bs := Utf8.Encode(text);
    }
  }

  lemma Associative(a: string, b: string, c: string)
    ensures a + (b + c) == a + b + c
  {
  }

  lemma EscapeCons(c: char, s: string)
    ensures Escape([c] + s) == EscapeRune(c) + Escape(s)
  {
    assert ([c] + s)[1..] == s;
  }

  lemma SplitHead(a: string, b: string)
    requires a != ""
    ensures a == [a[0]] + a[1..] && a + b == [a[0]] + (a[1..] + b)
  {
  }

  lemma {:induction false} EscapeConcat(a: string, b: string)
    ensures Escape(a + b) == Escape(a) + Escape(b)
    decreases |a|
  {
    if a == "" {
      assert a + b == b;
    } else {
      var c, rest := a[0], a[1..];
      SplitHead(a, b);
      EscapeConcat(rest, b);
      EscapeConsConcat(c, rest, b);
    }
  }

  lemma EscapeConsConcat(c: char, s: string, b: string)
    requires Escape(s + b) == Escape(s) + Escape(b)
    ensures Escape([c] + (s + b)) == Escape([c] + s) + Escape(b)
  {
    EscapeCons(c, s + b);
    EscapeCons(c, s);
    Associative(EscapeRune(c), Escape(s), Escape(b));
  }

  lemma EscapeNext(start: string, s: string, i: nat)
    requires i < |s|
    ensures start + Escape(s[..i + 1]) == start + Escape(s[..i]) + EscapeRune(s[i])
  {
    EscapeConcat(s[..i], [s[i]]);
    assert s[..i + 1] == s[..i] + [s[i]];
    assert [s[i]][1..] == "";
    Associative(start, Escape(s[..i]), EscapeRune(s[i]));
  }

  /** Writes one rune of a string, escaped. */
  method WriteEscaped(buf: Buffer, r: char)
    modifies buf
    ensures buf.text == old(buf.text) + EscapeRune(r)
  {
    if r == '"' {
      buf.WriteText("\\\"");
    } else if r == '\\' {
      buf.WriteText("\\\\");
    } else if r == '\n' {
      buf.WriteText("\\n");
    } else if r == '\r' {
      buf.WriteText("\\r");
    } else if r == '\t' {
      buf.WriteText("\\t");
    } else if r == 8 as char {
      buf.WriteText("\\b");
    } else if r == 12 as char {
      buf.WriteText("\\f");
    } else if r < ' ' {
      buf.WriteText("\\u00" + [HexDigit(r as int / 16), HexDigit(r as int % 16)]);
    } else {
      buf.WriteText([r]);
    }
  }

  lemma QuoteParts(before: string, s: string)
    ensures before + "\"" + Escape(s) + "\"" == before + Quote(s)
  {
  }

  /** Writes `s` between quotes, escaping one rune at a time. */
  method WriteString(buf: Buffer, s: string)
    modifies buf
    ensures buf.text == old(buf.text) + Quote(s)
  {
    buf.WriteText("\"");
    ghost var start := buf.text;
    for i := 0 to |s|
      invariant buf.text == start + Escape(s[..i])
    {
      EscapeNext(start, s, i);
      WriteEscaped(buf, s[i]);
    }
    assert s[..|s|] == s;
    buf.WriteText("\"");
    QuoteParts(old(buf.text), s);
  }

  /** sort.Strings. */
  method SortStrings(keys: seq<string>) returns (sorted: seq<string>)
    requires forall i, j | 0 <= i < j < |keys| :: keys[i] != keys[j]
    ensures StrictlySorted(sorted)
    ensures multiset(sorted) == multiset(keys)
  {
    sorted := [];
    for i := 0 to |keys|
      invariant StrictlySorted(sorted)
      invariant multiset(sorted) == multiset(keys[..i])
    {
      assert keys[i] !in multiset(keys[..i]);
      assert forall k :: k in sorted <==> k in multiset(sorted);
      InsertSorted(keys[i], sorted);
      sorted := Insert(keys[i], sorted);
      assert keys[..i + 1] == keys[..i] + [keys[i]];
    }
    assert keys[..|keys|] == keys;
  }

  /** Collects the keys of an object in whatever order the map yields them, and sorts. */
  method Keys(members: map<string, Json>) returns (keys: seq<string>)
    ensures keys == SortedKeys(members.Keys)
  {
    keys := [];
    var left := members.Keys;
    while left != {}
      invariant left <= members.Keys
      invariant forall k :: k in keys <==> k in members.Keys - left
      invariant forall i, j | 0 <= i < j < |keys| :: keys[i] != keys[j]
      decreases left
    {
      var k :| k in left;
      left := left - {k};
      keys := keys + [k];
    }
    ghost var collected := keys;
    keys := SortStrings(keys);
    assert forall k :: k in keys <==> k in multiset(keys);
    assert forall k :: k in collected <==> k in multiset(collected);
    SortedOnce(keys, SortedKeys(members.Keys));
  }

  /** Appends the canonical text of `v`. */
  method WriteCanonical(buf: Buffer, v: Json)
    modifies buf
    ensures buf.text == old(buf.text) + Print(v)
    decreases v, 1
  {
    match v {
      case Object(_) => WriteObject(buf, v);
      case Array(_) => WriteArray(buf, v);
      case Number(lit) =>
        var s := lit;
        if WholeFloat(s) {
          s := s[..IndexOf(s, '.')];
        }
        buf.WriteText(s);
      case Text(s) => WriteString(buf, s);
      case Bool(b) => buf.WriteText(if b then "true" else "false");
      case Null => buf.WriteText("null");
    }
  }

  /** The case of an object in `WriteCanonical`. */
  method WriteObject(buf: Buffer, v: Json)
    requires v.Object?
    modifies buf
    ensures buf.text == old(buf.text) + Print(v)
    decreases v, 0, 2
  {
    var keys := Keys(v.members);
    ghost var members := PrintMembers(v, keys, 0);
    assert Print(v) == "{" + members + "}";
    buf.WriteText("{");
    WriteMembers(buf, v, keys);
    buf.WriteText("}");
    Braced(old(buf.text), members);
  }

  lemma Braced(before: string, members: string)
    ensures before + "{" + members + "}" == before + ("{" + members + "}")
  {
    Associative(before, "{" + members, "}");
    Associative(before, "{", members);
  }

  method WriteMembers(buf: Buffer, v: Json, keys: seq<string>)
    requires v.Object? && forall k | k in keys :: k in v.members
    modifies buf
    ensures buf.text == old(buf.text) + PrintMembers(v, keys, 0)
    decreases v, 0, 1
  {
    for i := 0 to |keys|
      invariant buf.text + PrintMembers(v, keys, i) == old(buf.text) + PrintMembers(v, keys, 0)
    {
      WriteMember(buf, v, keys, i);
    }
    assert buf.text + "" == buf.text;
  }

  /** One pass of the loop over keys. */
  method WriteMember(buf: Buffer, v: Json, keys: seq<string>, i: nat)
    requires v.Object? && i < |keys| && forall k | k in keys :: k in v.members
    modifies buf
    ensures buf.text + PrintMembers(v, keys, i + 1) == old(buf.text) + PrintMembers(v, keys, i)
    decreases v, 0, 0
  {
    ghost var before := buf.text;
    if i > 0 {
      buf.WriteText(",");
    }
    var k := keys[i];
    assert k in keys;
    WriteString(buf, k);
    buf.WriteText(":");
    WriteCanonical(buf, v.members[k]);
    ghost var q, p := Quote(k), Print(v.members[k]);
    assert buf.text == before + Comma(i) + q + ":" + p;
    Pieces(before, Comma(i), q, p, PrintMembers(v, keys, i + 1));
  }

  lemma Pieces(before: string, comma: string, key: string, value: string, rest: string)
    ensures before + (comma + key + ":" + value + rest) == before + comma + key + ":" + value + rest
  {
  }

  /** The case of an array in `WriteCanonical`. */
  method WriteArray(buf: Buffer, v: Json)
    requires v.Array?
    modifies buf
    ensures buf.text == old(buf.text) + Print(v)
    decreases v, 0
  {
    ghost var elems := PrintElems(v, 0);
    assert Print(v) == "[" + elems + "]";
    buf.WriteText("[");
    ghost var all := buf.text + elems;
    for i := 0 to |v.elems|
      invariant buf.text + PrintElems(v, i) == all
    {
      WriteElem(buf, v, i);
    }
    assert buf.text == all;
    buf.WriteText("]");
  }

  /** One pass of the loop over elements. */
  method WriteElem(buf: Buffer, v: Json, i: nat)
    requires v.Array? && i < |v.elems|
    modifies buf
    ensures buf.text + PrintElems(v, i + 1) == old(buf.text) + PrintElems(v, i)
    decreases v, 0, 0
  {
    ghost var before := buf.text;
    if i > 0 {
      buf.WriteText(",");
    }
    WriteCanonical(buf, v.elems[i]);
    assert buf.text == before + Comma(i) + Print(v.elems[i]);
    Associative(before, Comma(i) + Print(v.elems[i]), PrintElems(v, i + 1));
    Associative(before, Comma(i), Print(v.elems[i]));
  }

  datatype Result = Bytes(bytes: seq<Utf8.byte>) | DecodeError

  /** The canonical bytes of a body, or the decoder's error. */
  method CanonicalBytes(body: string) returns (r: Result)
    ensures r == match CanonicalText(body)
                 case Fail => DecodeError
                 case Ok(text, _) => Bytes(Utf8.Encode(text))
  {
    match Decode(body) {
      case Fail => r := DecodeError;
      case Ok(v, _) =>
        var buf := new Buffer();
        WriteCanonical(buf, v);
        assert buf.text == Print(v);
        var bs := buf.Bytes();
        r := Bytes(bs);
    }
  }
}
