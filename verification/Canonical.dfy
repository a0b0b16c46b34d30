/**
 The canonical form a webhook is signed over: sorted keys, minimal escapes,
 whole floats as integers. `Print` is what pkg/compliance/didit/webhook.go
 writes; the writer itself is in CanonicalWriter.dfy.
 */
module Canonical {
  import opened Json
  import Utf8

  // --- Key order ---

  /** sort.Strings compares the UTF-8 bytes of its strings. */
  predicate KeyLess(a: string, b: string) {
    Utf8.BytesLess(Utf8.Encode(a), Utf8.Encode(b))
  }

  predicate StrictlySorted(ks: seq<string>) {
    forall i, j | 0 <= i < j < |ks| :: KeyLess(ks[i], ks[j])
  }

  lemma KeyOrder(a: string, b: string, c: string)
    ensures !KeyLess(a, a)
    ensures a == b || KeyLess(a, b) || KeyLess(b, a)
    ensures KeyLess(a, b) && KeyLess(b, c) ==> KeyLess(a, c)
  {
    Utf8.ByteOrderIsRuneOrder(a, a);
    Utf8.ByteOrderIsRuneOrder(a, b);
    Utf8.ByteOrderIsRuneOrder(b, a);
    Utf8.ByteOrderIsRuneOrder(b, c);
    Utf8.ByteOrderIsRuneOrder(a, c);
    Utf8.RunesIrreflexive(a);
    Utf8.RunesTotal(a, b);
    if KeyLess(a, b) && KeyLess(b, c) { Utf8.RunesTransitive(a, b, c); }
  }

  function Insert(k: string, ks: seq<string>): (r: seq<string>)
    ensures multiset(r) == multiset(ks) + multiset{k}
  {
    if ks == [] || !KeyLess(ks[0], k) then
      assert [k] + ks == [k] + ks[..];
      [k] + ks
    else
      assert ks == [ks[0]] + ks[1..];
      [ks[0]] + Insert(k, ks[1..])
  }

  lemma {:induction false} InsertSorted(k: string, ks: seq<string>)
    requires StrictlySorted(ks) && k !in ks
    ensures StrictlySorted(Insert(k, ks))
  {
    var r := Insert(k, ks);
    if ks == [] {
    } else if !KeyLess(ks[0], k) {
      forall j | 0 <= j < |ks| ensures KeyLess(k, ks[j]) {
        KeyOrder(k, ks[0], ks[j]);
      }
      assert forall i, j | 0 <= i < j < |r| :: r[j] == ks[j - 1] && (i > 0 ==> r[i] == ks[i - 1]);
    } else {
      InsertSorted(k, ks[1..]);
      var t := Insert(k, ks[1..]);
      forall j | 0 <= j < |t| ensures KeyLess(ks[0], t[j]) {
        assert t[j] in multiset(t);
        assert t[j] == k || t[j] in ks[1..];
      }
      assert forall i, j | 0 <= i < j < |r| :: r[j] == t[j - 1] && (i > 0 ==> r[i] == t[i - 1]);
    }
  }

  /** `ks` lists `keys` in strictly increasing order. */
  ghost predicate Lists(ks: seq<string>, keys: set<string>) {
    StrictlySorted(ks) && forall k :: k in ks <==> k in keys
  }

  lemma {:induction false} SortedExists(keys: set<string>) returns (ks: seq<string>)
    ensures Lists(ks, keys)
  {
    ks := [];
    if keys != {} {
      var k :| k in keys;
      var rest := SortedExists(keys - {k});
      InsertSorted(k, rest);
      ks := Insert(k, rest);
      assert forall x :: x in ks <==> x in multiset(ks);
      assert forall x :: x in rest <==> x in multiset(rest);
    }
  }

  /** The keys of an object in the order they are written. */
  ghost function SortedKeys(keys: set<string>): (ks: seq<string>)
    ensures Lists(ks, keys)
  {
    assert exists ks :: Lists(ks, keys) by { var ks := SortedExists(keys); }
    var ks :| Lists(ks, keys);
    ks
  }

  /** A set has one strictly sorted listing, so neither the map's iteration
      order nor the sorting algorithm can show in the output. */
  lemma {:induction false} SortedOnce(a: seq<string>, b: seq<string>)
    requires StrictlySorted(a) && StrictlySorted(b)
    requires forall k :: k in a <==> k in b
    ensures a == b
  {
    assert |b| > 0 ==> b[0] in b;
    if a != [] {
      assert a[0] in b && b != [] && b[0] in a;
      var i :| 0 <= i < |b| && b[i] == a[0];
      var j :| 0 <= j < |a| && a[j] == b[0];
      KeyOrder(a[0], b[0], a[0]);
      assert a[0] == b[0];
      KeyOrder(a[0], a[0], a[0]);
      assert a == [a[0]] + a[1..] && b == [b[0]] + b[1..];
      assert a[0] !in a[1..] && b[0] !in b[1..];
      assert forall k :: k in a[1..] <==> k in a && k != a[0];
      assert forall k :: k in b[1..] <==> k in b && k != b[0];
      SortedOnce(a[1..], b[1..]);
    }
  }

  // --- Numbers ---

  /** The text matches `^-?\d+\.0+$`. */
  predicate WholeFloat(s: string) {
    var g := SignLen(s);
    var n := DigitRun(s[g..]);
    && n > 0
    && g + n + 1 < |s|
    && s[g + n] == '.'
    && forall i | g + n < i < |s| :: s[i] == '0'
  }

  function IndexOf(s: string, c: char): (n: nat)
    ensures n <= |s|
    ensures n < |s| ==> s[n] == c
    ensures c !in s[..n]
  {
    if s == "" || s[0] == c then 0 else 1 + IndexOf(s[1..], c)
  }

  function NormLit(s: string): string {
    if WholeFloat(s) then s[..IndexOf(s, '.')] else s
  }

  /** `v` with every whole float replaced by its integer form. */
  ghost function Norm(v: Json): Json {
    match v
    case Number(lit) => Number(NormLit(lit))
    case Array(elems) => Array(seq(|elems|, i requires 0 <= i < |elems| => Norm(elems[i])))
    case Object(members) => Object(map k | k in members :: Norm(members[k]))
    case _ => v
  }

  // --- The printed text ---

  function EscapeRune(c: char): string {
    if c == '"' then "\\\""
    else if c == '\\' then "\\\\"
    else if c == '\n' then "\\n"
    else if c == '\r' then "\\r"
    else if c == '\t' then "\\t"
    else if c == 8 as char then "\\b"
    else if c == 12 as char then "\\f"
    else if c < ' ' then "\\u00" + [HexDigit(c as int / 16), HexDigit(c as int % 16)]
    else [c]
  }

  function Escape(s: string): string {
    if s == "" then "" else EscapeRune(s[0]) + Escape(s[1..])
  }

  function Quote(s: string): string { "\"" + Escape(s) + "\"" }

  function Comma(i: nat): string { if i > 0 then "," else "" }

  ghost function Print(v: Json): string
    decreases v, 1, 0
  {
    match v
    case Null => "null"
    case Bool(b) => if b then "true" else "false"
    case Number(lit) => NormLit(lit)
    case Text(s) => Quote(s)
    case Array(elems) => "[" + PrintElems(v, 0) + "]"
    case Object(members) => "{" + PrintMembers(v, SortedKeys(members.Keys), 0) + "}"
  }

  /** Elements `i` onwards, with the comma that sets each off from the one before. */
  ghost function PrintElems(v: Json, i: nat): string
    requires v.Array? && i <= |v.elems|
    decreases v, 0, |v.elems| - i
  {
    if i == |v.elems| then ""
    else Comma(i) + Print(v.elems[i]) + PrintElems(v, i + 1)
  }

  ghost function PrintMembers(v: Json, keys: seq<string>, i: nat): string
    requires v.Object? && i <= |keys| && forall k | k in keys :: k in v.members
    decreases v, 0, |keys| - i
  {
    if i == |keys| then ""
    else Comma(i) + Quote(keys[i]) + ":" + Print(v.members[keys[i]]) + PrintMembers(v, keys, i + 1)
  }

  // --- Documents in general ---

  /** The compact text of a document, members in the order given. */
  function Write(d: Doc): string
    decreases d, 1, 0
  {
    match d
    case DNull => "null"
    case DBool(b) => if b then "true" else "false"
    case DNumber(lit) => lit
    case DText(s) => Quote(s)
    case DArray(elems) => "[" + WriteElems(d, 0) + "]"
    case DObject(members) => "{" + WriteMembers(d, 0) + "}"
  }

  function WriteElems(d: Doc, i: nat): string
    requires d.DArray? && i <= |d.elems|
    decreases d, 0, |d.elems| - i
  {
    if i == |d.elems| then ""
    else Comma(i) + Write(d.elems[i]) + WriteElems(d, i + 1)
  }

  function WriteMembers(d: Doc, i: nat): string
    requires d.DObject? && i <= |d.members|
    decreases d, 0, |d.members| - i
  {
    if i == |d.members| then ""
    else Comma(i) + Quote(d.members[i].key) + ":" + Write(d.members[i].value) + WriteMembers(d, i + 1)
  }

  /** The value a document stands for: members in a map, the last of a repeated key kept. */
  ghost function Meaning(d: Doc): Json
    decreases d, 1, 0
  {
    match d
    case DNull => Null
    case DBool(b) => Bool(b)
    case DNumber(lit) => Number(lit)
    case DText(s) => Text(s)
    case DArray(elems) => Array(ElemMeanings(d, |elems|))
    case DObject(members) => Object(MemberMeanings(d, |members|))
  }

  ghost function ElemMeanings(d: Doc, n: nat): (r: seq<Json>)
    requires d.DArray? && n <= |d.elems|
    ensures |r| == n && forall i | 0 <= i < n :: r[i] == Meaning(d.elems[i])
    decreases d, 0, n
  {
    if n == 0 then [] else ElemMeanings(d, n - 1) + [Meaning(d.elems[n - 1])]
  }

  ghost function MemberMeanings(d: Doc, n: nat): (m: map<string, Json>)
    requires d.DObject? && n <= |d.members|
    decreases d, 0, n
  {
    if n == 0 then map[]
    else MemberMeanings(d, n - 1)[d.members[n - 1].key := Meaning(d.members[n - 1].value)]
  }

  /** The document `Print` writes. */
  ghost function Sorted(v: Json): Doc {
    match v
    case Null => DNull
    case Bool(b) => DBool(b)
    case Number(lit) => DNumber(NormLit(lit))
    case Text(s) => DText(s)
    case Array(elems) => DArray(seq(|elems|, i requires 0 <= i < |elems| => Sorted(elems[i])))
    case Object(members) =>
      var keys := SortedKeys(members.Keys);
      DObject(seq(|keys|, i requires 0 <= i < |keys| =>
        assert keys[i] in keys; Member(keys[i], Sorted(members[keys[i]]))))
  }
}
