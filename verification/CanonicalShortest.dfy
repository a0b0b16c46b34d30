/**
 What singles the canonical text out among all texts of a value: no other is
 shorter, escapes use lower-case digits, and keys come in code point order.
 */
module CanonicalShortest {
  import opened Json
  import opened Canonical
  import opened CanonicalNumber
  import opened CanonicalRoundTrip
  import Sums
  import Utf8

  // --- Strings ---

  lemma EscapeFirst(c: char, v: string)
    ensures |Escape([c] + v)| == |EscapeRune(c)| + |Escape(v)|
  {
    assert ([c] + v)[1..] == v;
  }

  lemma ConsValue(t: string, c: char, n: nat)
    requires n <= |t| && ReadString(t) == Cons(c, ReadString(t[n..])) && ReadString(t).Ok?
    ensures ReadString(t[n..]).Ok? && ReadString(t).rest == ReadString(t[n..]).rest
    ensures ReadString(t).value == [c] + ReadString(t[n..]).value
  {
  }

  /** How many characters of a spelling its first rune takes, and which rune it is. */
  lemma ReadFirst(t: string) returns (c: char, n: nat)
    requires ReadString(t).Ok? && t[0] != '"'
    ensures 0 < n <= |t| && ReadString(t) == Cons(c, ReadString(t[n..]))
    ensures |EscapeRune(c)| <= n
    ensures n == 1 ==> c == t[0] && c != '\\' && c >= ' '
    ensures n == 2 ==> t[0] == '\\' && t[1] != 'u' && ShortEscape(t[1]) == [c]
    ensures n > 2 ==> t[..2] == "\\u" && CodeUnit(t) >= 0 && (c, n) == EscapedRune(t)
  {
    if t[0] != '\\' {
      c, n := t[0], 1;
    } else if t[1] == 'u' {
      c, n := EscapedRune(t).0, EscapedRune(t).1;
    } else {
      c, n := ShortEscape(t[1])[0], 2;
      assert t[0] == '\\' && ShortEscape(t[1]) == [c];
    }
  }

  /** No spelling of a string is shorter than the escaped one. */
  lemma {:induction false} EscapeShortest(t: string)
    ensures ReadString(t).Ok? ==> |Escape(ReadString(t).value)| + 1 + |ReadString(t).rest| <= |t|
    decreases |t|
  {
    if ReadString(t).Ok? && t[0] != '"' {
      var c, n := ReadFirst(t);
      ConsValue(t, c, n);
      EscapeShortest(t[n..]);
      EscapeFirst(c, ReadString(t[n..]).value);
    }
  }

  predicate UpperHex(c: char) { 'A' <= c <= 'F' }

  /** No \u escape before the closing quote has an upper-case digit. */
  predicate LowerCase(t: string)
    decreases |t|
  {
    if t == "" || t[0] == '"' then true
    else if t[0] != '\\' then LowerCase(t[1..])
    else if |t| < 2 then true
    else if t[1] != 'u' then LowerCase(t[2..])
    else |t| >= 6 && !UpperHex(t[2]) && !UpperHex(t[3]) && !UpperHex(t[4]) && !UpperHex(t[5]) && LowerCase(t[6..])
  }

  lemma LowerDigit(c: char)
    requires HexValue(c) >= 0 && !UpperHex(c)
    ensures HexDigit(HexValue(c)) == c
  {
  }

  lemma ShortEscapeAgrees(x: char, c: char)
    requires ShortEscape(x) == [c] && |EscapeRune(c)| == 2
    ensures EscapeRune(c) == ['\\', x]
  {
  }

  lemma CodeUnitAgrees(t: string, c: char)
    requires |t| >= 6 && CodeUnit(t) == c as int && |EscapeRune(c)| == 6
    requires !UpperHex(t[2]) && !UpperHex(t[3]) && !UpperHex(t[4]) && !UpperHex(t[5])
    ensures t[..6] == EscapeRune(c)
  {
    var a, b, d, e := HexValue(t[2]), HexValue(t[3]), HexValue(t[4]), HexValue(t[5]);
    assert c < ' ' && a == 0 && b == 0 && d == c as int / 16 && e == c as int % 16;
    LowerDigit(t[2]);
    LowerDigit(t[3]);
    LowerDigit(t[4]);
    LowerDigit(t[5]);
    assert EscapeRune(c) == "\\u00" + [HexDigit(d), HexDigit(e)];
    assert t[..6] == [t[0], t[1], t[2], t[3], t[4], t[5]];
  }

  lemma LowerRest(t: string)
    requires LowerCase(t) && |t| >= 2 && t[0] == '\\'
    ensures t[1] != 'u' ==> LowerCase(t[2..])
    ensures t[1] == 'u' ==> |t| >= 6 && LowerCase(t[6..])
    ensures t[1] == 'u' ==> !UpperHex(t[2]) && !UpperHex(t[3]) && !UpperHex(t[4]) && !UpperHex(t[5])
  {
  }

  lemma ShortestShort(t: string, c: char)
    requires LowerCase(t) && |t| >= 2 && |EscapeRune(c)| == 2
    requires t[0] == '\\' && t[1] != 'u' && ShortEscape(t[1]) == [c]
    ensures t[..2] == EscapeRune(c) && LowerCase(t[2..])
  {
    LowerRest(t);
    ShortEscapeAgrees(t[1], c);
    assert t[..2] == [t[0], t[1]];
  }

  lemma EscapeLengths(c: char)
    ensures |EscapeRune(c)| <= 6 && (|EscapeRune(c)| > 2 ==> |EscapeRune(c)| == 6 && c < ' ')
  {
  }

  lemma ControlUnit(t: string, c: char)
    requires CodeUnit(t) >= 0 && EscapedRune(t) == (c, 6) && c < ' '
    ensures CodeUnit(t) == c as int
  {
  }

  lemma ShortestUnicode(t: string, c: char, n: nat)
    requires LowerCase(t) && CodeUnit(t) >= 0 && n > 2 && n == |EscapeRune(c)| && (c, n) == EscapedRune(t)
    ensures n <= |t| && t[..n] == EscapeRune(c) && LowerCase(t[n..])
  {
    EscapeLengths(c);
    ControlUnit(t, c);
    assert t[0] == '\\' && t[1] == 'u';
    LowerRest(t);
    CodeUnitAgrees(t, c);
  }

  /** A first rune spelt as shortly as can be, in lower case, is spelt as the escaper does. */
  lemma ShortestFirst(t: string, c: char, n: nat)
    requires LowerCase(t) && t != "" && t[0] != '"' && 0 < n <= |t| && n == |EscapeRune(c)|
    requires n == 1 ==> c == t[0] && c != '\\' && c >= ' '
    requires n == 2 ==> t[0] == '\\' && t[1] != 'u' && ShortEscape(t[1]) == [c]
    requires n > 2 ==> t[..2] == "\\u" && CodeUnit(t) >= 0 && (c, n) == EscapedRune(t)
    ensures t[..n] == EscapeRune(c) && LowerCase(t[n..])
  {
    if n == 2 {
      ShortestShort(t, c);
    } else if n > 2 {
      ShortestUnicode(t, c, n);
    } else {
      assert t[..1] == [t[0]];
    }
  }

  lemma Spelt(t: string, c: char, n: nat, v: string, rest: string)
    requires n <= |t| && t[..n] == EscapeRune(c) && t[n..] == Escape(v) + "\"" + rest
    ensures t == Escape([c] + v) + "\"" + rest
  {
    assert ([c] + v)[1..] == v;
    var e, b := EscapeRune(c), Escape(v);
    assert Escape([c] + v) == e + b;
    assert t == e + (b + "\"" + rest);
    Grouped(e, b, "\"", rest);
  }

  lemma Grouped(a: string, b: string, c: string, d: string)
    ensures a + (b + c + d) == a + b + c + d
  {
  }

  /** The escaped spelling is the only one of its length with lower-case digits. */
  lemma {:induction false} EscapeOnlyShortest(t: string)
    requires ReadString(t).Ok? && LowerCase(t)
    requires |Escape(ReadString(t).value)| + 1 + |ReadString(t).rest| == |t|
    ensures t == Escape(ReadString(t).value) + "\"" + ReadString(t).rest
    decreases |t|
  {
    var v, rest := ReadString(t).value, ReadString(t).rest;
    if t[0] == '"' {
      assert t == [t[0]] + t[1..];
    } else {
      var c, n := ReadFirst(t);
      var u := t[n..];
      ConsValue(t, c, n);
      EscapeShortest(u);
      EscapeFirst(c, ReadString(u).value);
      ShortestFirst(t, c, n);
      EscapeOnlyShortest(u);
      Spelt(t, c, n, ReadString(u).value, rest);
    }
  }

  lemma HexIsLower(n: nat)
    requires n < 16
    ensures !UpperHex(HexDigit(n))
  {
  }

  lemma {:induction false} EscapeIsLower(s: string, rest: string)
    ensures LowerCase(Escape(s) + "\"" + rest)
  {
    var t := Escape(s) + "\"" + rest;
    if s == "" {
      assert t[0] == '"';
    } else {
      var e, tail := EscapeRune(s[0]), Escape(s[1..]) + "\"" + rest;
      EscapeIsLower(s[1..], rest);
      assert t == e + tail;
      assert t[|e|..] == tail;
      if |e| == 6 {
        HexIsLower(s[0] as int / 16);
        HexIsLower(s[0] as int % 16);
        assert t[0] == e[0] && t[1] == e[1] && t[2] == e[2] && t[3] == e[3] && t[4] == e[4] && t[5] == e[5];
      } else if |e| == 2 {
        assert t[0] == e[0] && t[1] == e[1];
      } else {
        assert t[0] == e[0];
      }
    }
  }

  // --- Keys ---

  /** Keys are written in code point order. */
  lemma KeysAscend(keys: set<string>, i: nat, j: nat)
    requires i < j < |SortedKeys(keys)|
    ensures Utf8.RunesLess(SortedKeys(keys)[i], SortedKeys(keys)[j])
  {
    var ks := SortedKeys(keys);
    assert KeyLess(ks[i], ks[j]);
    Utf8.ByteOrderIsRuneOrder(ks[i], ks[j]);
  }

  // --- Numbers ---

  function Zeros(n: nat): string { seq(n, _ => '0') }

  /** An integer literal: no fraction and no exponent. */
  predicate IsInteger(lit: string) { IsNumber(lit) && '.' !in lit && 'e' !in lit && 'E' !in lit }

  lemma IntegerShape(lit: string)
    requires IsInteger(lit)
    ensures var t := lit[SignLen(lit)..]; |t| > 0 && DigitRun(t) == |t| && IntLen(t) == |t|
  {
    var t := lit[SignLen(lit)..];
    var tail := t[IntLen(t)..];
    NoLeadingZero(lit);
  }

  /** `lit` is an integer literal, a point and `n` zeros. */
  predicate WholePart(lit: string, n: nat)
    requires 0 < n < |lit|
  {
    IsInteger(lit[..|lit| - n - 1]) && lit == lit[..|lit| - n - 1] + "." + Zeros(n)
  }

  lemma DigitsThenPoint(digits: string, rest: string)
    requires DigitRun(digits) == |digits| && rest != "" && rest[0] == '.'
    ensures DigitRun(digits + rest) == |digits|
  {
    var s, n := digits + rest, |digits|;
    assert s[n] == '.' && forall i | 0 <= i < n :: s[i] == digits[i] && IsDigit(digits[i]);
  }

  lemma NoDotNoExponent(s: string, g: nat)
    requires g == SignLen(s) && DigitRun(s[g..]) == |s| - g
    ensures '.' !in s && 'e' !in s && 'E' !in s
  {
    forall k | 0 <= k < |s| ensures s[k] != '.' && s[k] != 'e' && s[k] != 'E' {
      if k >= g { assert s[k] == s[g..][k - g] && IsDigit(s[g..][k - g]); }
    }
  }

  lemma WholeFloatText(lit: string)
    requires IsNumber(lit) && WholeFloat(lit)
    ensures IsInteger(NormLit(lit)) && |NormLit(lit)| + 1 < |lit|
    ensures lit == NormLit(lit) + "." + Zeros(|lit| - |NormLit(lit)| - 1)
  {
    WholeFloatShape(lit);
    NormLitKeepsValue(lit);
    var g := SignLen(lit);
    var n := g + DigitRun(lit[g..]);
    assert NormLit(lit) == lit[..n];
    NoDotNoExponent(NormLit(lit), g);
    CutAtPoint(lit, n);
  }

  lemma CutAtPoint(s: string, n: nat)
    requires n < |s| && s[n] == '.' && forall i | n < i < |s| :: s[i] == '0'
    ensures s == s[..n] + "." + Zeros(|s| - n - 1)
  {
  }

  lemma PointAndZeros(i: string, n: nat, lit: string)
    requires n > 0 && lit == i + "." + Zeros(n) && |i| > SignLen(i) && DigitRun(i[SignLen(i)..]) == |i| - SignLen(i)
    ensures WholeFloat(lit)
  {
    var g, zeros := SignLen(i), "." + Zeros(n);
    assert lit == i + zeros && lit[0] == i[0];
    DropAppend(i, zeros, g);
    DigitsThenPoint(i[g..], zeros);
    forall k | |i| < k < |lit| ensures lit[k] == '0' { assert lit[k] == Zeros(n)[k - |i| - 1]; }
  }

  lemma WholePartIsWholeFloat(lit: string, n: nat)
    requires IsNumber(lit) && 0 < n < |lit| && WholePart(lit, n)
    ensures WholeFloat(lit)
  {
    var i := lit[..|lit| - n - 1];
    IntegerShape(i);
    PointAndZeros(i, n, lit);
  }

  /** The literals that are shortened are exactly an integer literal, a point and zeros,
      and what is left is the integer literal. */
  lemma WholeFloatExactly(lit: string)
    requires IsNumber(lit)
    ensures WholeFloat(lit) <==> exists n: nat :: 0 < n < |lit| && WholePart(lit, n)
    ensures WholeFloat(lit) ==> IsInteger(NormLit(lit)) && NormLit(lit) < lit
  {
    if WholeFloat(lit) {
      WholeFloatText(lit);
      var n := |lit| - |NormLit(lit)| - 1;
      assert lit[..|lit| - n - 1] == NormLit(lit);
      assert WholePart(lit, n);
    }
    if n: nat :| 0 < n < |lit| && WholePart(lit, n) { WholePartIsWholeFloat(lit, n); }
  }

  // --- Whole texts ---

  /** What the elements of an array take, each with a comma or the closing bracket. */
  ghost function ElemsCost(elems: seq<Json>): nat {
    if elems == [] then 0 else |Print(elems[0])| + 1 + ElemsCost(elems[1..])
  }

  lemma {:induction false} ElemsCostAppend(elems: seq<Json>, v: Json)
    ensures ElemsCost(elems + [v]) == ElemsCost(elems) + |Print(v)| + 1
  {
    if elems == [] {
      assert [v][1..] == [] && [] + [v] == [v];
    } else {
      ElemsCostAppend(elems[1..], v);
      assert (elems + [v])[0] == elems[0] && (elems + [v])[1..] == elems[1..] + [v];
    }
  }

  lemma {:induction false} PrintElemsLength(v: Json, i: nat)
    requires v.Array? && i <= |v.elems|
    ensures |PrintElems(v, i)| == ElemsCost(v.elems[i..]) - if i == 0 && v.elems != [] then 1 else 0
    decreases |v.elems| - i
  {
    if i < |v.elems| {
      PrintElemsLength(v, i + 1);
      assert v.elems[i..][1..] == v.elems[i + 1..];
    }
  }

  lemma PrintArrayLength(elems: seq<Json>)
    ensures |Print(Array(elems))| == if elems == [] then 2 else 1 + ElemsCost(elems)
  {
    PrintElemsLength(Array(elems), 0);
    assert elems[0..] == elems;
  }

  ghost function MemberCost(m: map<string, Json>, k: string): int {
    if k in m then |Quote(k)| + 2 + |Print(m[k])| else 0
  }

  /** The same of the members of an object, each under its last value. */
  ghost function MembersCost(m: map<string, Json>): int { CostOf(m, m.Keys) }

  ghost function CostOf(m: map<string, Json>, keys: set<string>): int { Sums.Sum(keys, k => MemberCost(m, k)) }

  lemma CostOut(m: map<string, Json>, keys: set<string>, k: string)
    requires k in keys
    ensures CostOf(m, keys) == MemberCost(m, k) + CostOf(m, keys - {k})
  {
    Sums.SumOut(keys, (x: string) => MemberCost(m, x), k);
  }

  lemma MembersCostPut(m: map<string, Json>, k: string, v: Json)
    ensures MembersCost(m[k := v]) <= MembersCost(m) + |Quote(k)| + 2 + |Print(v)|
  {
    var m' := m[k := v];
    var f, g := (x: string) => MemberCost(m, x), (x: string) => MemberCost(m', x);
    Sums.SumOut(m'.Keys, g, k);
    Sums.SumSame(m'.Keys - {k}, f, g);
    if k in m {
      Sums.SumOut(m.Keys, f, k);
      assert m'.Keys - {k} == m.Keys - {k};
    } else {
      assert m'.Keys - {k} == m.Keys;
    }
  }

  function KeysFrom(keys: seq<string>, i: nat): set<string>
    requires i <= |keys|
  {
    set j | i <= j < |keys| :: keys[j]
  }

  lemma KeysFromNext(keys: seq<string>, i: nat)
    requires StrictlySorted(keys) && i < |keys|
    ensures keys[i] in KeysFrom(keys, i) && KeysFrom(keys, i) - {keys[i]} == KeysFrom(keys, i + 1)
  {
    forall j | i < j < |keys| ensures keys[j] != keys[i] { KeyOrder(keys[i], keys[j], keys[i]); }
  }

  lemma PrintMemberLength(v: Json, keys: seq<string>, i: nat)
    requires v.Object? && i < |keys| && forall k | k in keys :: k in v.members
    ensures |PrintMembers(v, keys, i)|
         == |PrintMembers(v, keys, i + 1)| + MemberCost(v.members, keys[i]) - if i == 0 then 1 else 0
  {
    var key, value, rest := Quote(keys[i]), Print(v.members[keys[i]]), PrintMembers(v, keys, i + 1);
    assert keys[i] in keys;
    assert PrintMembers(v, keys, i) == Comma(i) + key + ":" + value + rest;
  }

  lemma {:induction false} PrintMembersLength(v: Json, keys: seq<string>, i: nat)
    requires v.Object? && i <= |keys| && StrictlySorted(keys) && forall k | k in keys :: k in v.members
    ensures |PrintMembers(v, keys, i)|
         == CostOf(v.members, KeysFrom(keys, i)) - if i == 0 && keys != [] then 1 else 0
    decreases |keys| - i
  {
    if i == |keys| {
      assert KeysFrom(keys, i) == {};
    } else {
      PrintMembersLength(v, keys, i + 1);
      KeysFromNext(keys, i);
      PrintMemberLength(v, keys, i);
      CostOut(v.members, KeysFrom(keys, i), keys[i]);
    }
  }

  lemma PrintObjectLength(m: map<string, Json>)
    ensures |Print(Object(m))| == if m == map[] then 2 else 1 + MembersCost(m)
  {
    var keys := SortedKeys(m.Keys);
    PrintMembersLength(Object(m), keys, 0);
    assert forall k :: k in KeysFrom(keys, 0) <==> k in keys;
    assert KeysFrom(keys, 0) == m.Keys;
    if m != map[] {
      var k :| k in m;
      assert k in keys;
    } else {
    }
  }

  lemma ScalarShortest(t: string)
    requires t != "" && ReadScalar(t).Ok?
    ensures |Print(ReadScalar(t).value)| + |ReadScalar(t).rest| <= |t|
  {
    if t[0] == '"' { EscapeShortest(t[1..]); }
  }

  lemma MemberShortest(s: string)
    requires s != "" && s[0] == '"' && ReadString(s[1..]).Ok?
    ensures |Quote(ReadString(s[1..]).value)| + |ReadString(s[1..]).rest| <= |s|
  {
    EscapeShortest(s[1..]);
  }

  /** No text of a value is shorter than its canonical text, whatever white space,
      escapes, spellings of whole floats or repeated keys it has. */
  lemma {:induction false} CanonicalShortest(s: string)
    ensures ReadValue(s).Ok? ==> |Print(ReadValue(s).value)| + |ReadValue(s).rest| <= |s|
    decreases |s|, 1
  {
    var t := SkipSpace(s);
    if ReadValue(s).Ok? {
      if t[0] == '{' {
        ObjectShortest(SkipSpace(t[1..]));
      } else if t[0] == '[' {
        ArrayShortest(SkipSpace(t[1..]));
      } else {
        ScalarShortest(t);
      }
    }
  }

  lemma {:induction false} ObjectShortest(s: string)
    requires ReadObject(s).Ok?
    ensures |Print(ReadObject(s).value)| + |ReadObject(s).rest| <= |s| + 1
    decreases |s|, 3
  {
    PrintObjectLength(map[]);
    if s == "" || s[0] != '}' {
      MembersShortest(s, map[]);
      PrintObjectLength(ReadObject(s).value.members);
    }
  }

  lemma {:induction false} ArrayShortest(s: string)
    requires ReadArray(s).Ok?
    ensures |Print(ReadArray(s).value)| + |ReadArray(s).rest| <= |s| + 1
    decreases |s|, 3
  {
    PrintArrayLength([]);
    if s == "" || s[0] != ']' {
      ElemsShortest(s, []);
      PrintArrayLength(ReadArray(s).value.elems);
    }
  }

  lemma {:induction false} MembersShortest(s: string, acc: map<string, Json>)
    requires ReadMembers(s, acc).Ok?
    ensures var r := ReadMembers(s, acc);
      r.value.Object? && r.value.members != map[] && MembersCost(r.value.members) + |r.rest| <= MembersCost(acc) + |s|
    decreases |s|, 2
  {
    var Ok(k, afterKey) := ReadString(s[1..]);
    MemberShortest(s);
    var colon := SkipSpace(afterKey);
    CanonicalShortest(colon[1..]);
    var Ok(v, afterValue) := ReadValue(colon[1..]);
    var next := SkipSpace(afterValue);
    MembersCostPut(acc, k, v);
    if next[0] == ',' {
      MembersShortest(SkipSpace(next[1..]), acc[k := v]);
    } else {
      assert k in acc[k := v];
    }
  }

  lemma {:induction false} ElemsShortest(s: string, acc: seq<Json>)
    requires ReadElems(s, acc).Ok?
    ensures var r := ReadElems(s, acc);
      r.value.Array? && r.value.elems != [] && ElemsCost(r.value.elems) + |r.rest| <= ElemsCost(acc) + |s|
    decreases |s|, 2
  {
    CanonicalShortest(s);
    var Ok(v, afterValue) := ReadValue(s);
    var next := SkipSpace(afterValue);
    ElemsCostAppend(acc, v);
    if next[0] == ',' { ElemsShortest(next[1..], acc + [v]); }
  }
}
