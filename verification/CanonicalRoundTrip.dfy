/**
 What the canonical form keeps: reading it back gives the value that went in
 (whole floats as integers), it is a fixed point, and it does not see the
 order in which members arrived.
 */
module CanonicalRoundTrip {
  import opened Json
  import opened Canonical
  import Utf8

  // --- Number literals end where the document says they end ---

  /** `rest` cannot be taken for more of a number. */
  predicate Delimits(rest: string) {
    rest == "" || (!IsDigit(rest[0]) && rest[0] !in ".eE+-")
  }

  lemma {:induction false} DigitRunExtends(s: string, rest: string)
    requires Delimits(rest)
    ensures DigitRun(s + rest) == DigitRun(s)
  {
    if s == "" {
      assert s + rest == rest;
    } else if IsDigit(s[0]) {
      DigitRunExtends(s[1..], rest);
      assert (s + rest)[1..] == s[1..] + rest;
    }
  }

  lemma DropAppend(s: string, rest: string, n: nat)
    requires n <= |s|
    ensures (s + rest)[n..] == s[n..] + rest
  {
  }

  lemma IntExtends(s: string, rest: string)
    requires Delimits(rest)
    ensures SignLen(s + rest) == SignLen(s)
    ensures ExpSignLen(s + rest) == ExpSignLen(s)
    ensures IntLen(s + rest) == IntLen(s)
  {
    DigitRunExtends(s, rest);
    if s == "" { assert s + rest == rest; }
  }

  lemma FracExtends(s: string, rest: string)
    requires Delimits(rest)
    ensures FracLen(s + rest) == FracLen(s)
  {
    if s == "" {
      assert s + rest == rest;
    } else {
      DropAppend(s, rest, 1);
      DigitRunExtends(s[1..], rest);
    }
  }

  lemma ExpExtends(s: string, rest: string)
    requires Delimits(rest)
    ensures ExpLen(s + rest) == ExpLen(s)
  {
    if s == "" {
      assert s + rest == rest;
    } else {
      DropAppend(s, rest, 1);
      IntExtends(s[1..], rest);
      var g := ExpSignLen(s[1..]);
      DropAppend(s[1..], rest, g);
      DigitRunExtends(s[1..][g..], rest);
    }
  }

  lemma TailExtends(s: string, rest: string)
    requires Delimits(rest)
    ensures TailLen(s + rest) == TailLen(s)
  {
    FracExtends(s, rest);
    if FracLen(s) >= 0 {
      DropAppend(s, rest, FracLen(s));
      ExpExtends(s[FracLen(s)..], rest);
    }
  }

  lemma {:induction false} NumberExtends(s: string, rest: string)
    requires Delimits(rest)
    ensures NumberLen(s + rest) == NumberLen(s)
  {
    IntExtends(s, rest);
    var t := s[SignLen(s)..];
    DropAppend(s, rest, SignLen(s));
    IntExtends(t, rest);
    DropAppend(t, rest, IntLen(t));
    TailExtends(t[IntLen(t)..], rest);
  }

  // --- Strings ---

  lemma HexRoundTrip(n: nat)
    requires n < 16
    ensures HexValue(HexDigit(n)) == n
  {
  }

  lemma ReadEscapedRune(c: char, rest: string)
    ensures ReadString(EscapeRune(c) + rest) == Cons(c, ReadString(rest))
  {
    var e := EscapeRune(c);
    var t := e + rest;
    assert t[|e|..] == rest;
    if c < ' ' && |e| == 6 {
      HexRoundTrip(c as int / 16);
      HexRoundTrip(c as int % 16);
      assert t[2..6] == e[2..6];
      assert CodeUnit(t) == c as int;
      assert EscapedRune(t) == (c, 6);
    } else if |e| == 2 {
      assert t[0] == e[0] && t[1] == e[1];
    } else {
      assert t[0] == c;
    }
  }

  lemma {:induction false} ReadQuoted(s: string, rest: string)
    ensures ReadString(Escape(s) + "\"" + rest) == Ok(s, rest)
  {
    if s == "" {
      assert Escape(s) + "\"" + rest == "\"" + rest;
    } else {
      var tail := Escape(s[1..]) + "\"" + rest;
      assert Escape(s) + "\"" + rest == EscapeRune(s[0]) + tail;
      ReadEscapedRune(s[0], tail);
      ReadQuoted(s[1..], rest);
      assert s == [s[0]] + s[1..];
    }
  }

  // --- Reading back a written document ---

  lemma NoSpace(s: string)
    requires s != "" && !IsSpace(s[0])
    ensures SkipSpace(s) == s
  {
  }

  lemma NumberStart(lit: string)
    requires IsNumber(lit)
    ensures lit[0] == '-' || IsDigit(lit[0])
  {
  }

  /** Documents start with a character that is neither space nor a closer. */
  lemma WriteStart(d: Doc)
    requires ValidDoc(d)
    ensures Write(d) != "" && !IsSpace(Write(d)[0])
    ensures Write(d)[0] != ']' && Write(d)[0] != '}'
  {
  }

  lemma ReadNumberLiteral(lit: string, rest: string)
    requires IsNumber(lit) && Delimits(rest)
    ensures ReadNumber(lit + rest) == Ok(Number(lit), rest)
  {
    NumberExtends(lit, rest);
    var t := lit + rest;
    assert t[..|lit|] == lit && t[|lit|..] == rest;
  }

  lemma ReadLiteral(lit: string, rest: string)
    requires IsNumber(lit) && Delimits(rest)
    ensures ReadScalar(lit + rest) == Ok(Number(lit), rest)
  {
    NumberStart(lit);
    assert (lit + rest)[0] == lit[0];
    ReadNumberLiteral(lit, rest);
  }

  lemma ReadText(s: string, rest: string)
    ensures ReadScalar(Quote(s) + rest) == Ok(Text(s), rest)
  {
    var t := Quote(s) + rest;
    assert t[1..] == Escape(s) + "\"" + rest;
    ReadQuoted(s, rest);
  }

  lemma ReadKeyword(d: Doc, rest: string)
    requires d.DNull? || d.DBool?
    ensures ReadScalar(Write(d) + rest) == Ok(Meaning(d), rest)
  {
  }

  predicate IsScalar(d: Doc) { !d.DArray? && !d.DObject? }

  lemma ReadWriteScalar(d: Doc, rest: string)
    requires IsScalar(d) && ValidDoc(d) && Delimits(rest)
    ensures ReadScalar(Write(d) + rest) == Ok(Meaning(d), rest)
  {
    match d
    case DNumber(lit) => ReadLiteral(lit, rest);
    case DText(s) => ReadText(s, rest);
    case _ => ReadKeyword(d, rest);
  }

  lemma ScalarStart(d: Doc)
    requires IsScalar(d) && ValidDoc(d)
    ensures Write(d) != "" && !IsSpace(Write(d)[0])
    ensures Write(d)[0] != '[' && Write(d)[0] != ']' && Write(d)[0] != '{' && Write(d)[0] != '}'
  {
    if d.DNumber? { NumberStart(d.lit); }
  }

  /** How the first character of a value directs the reader. */
  lemma Dispatch(s: string)
    requires s != "" && !IsSpace(s[0])
    ensures s[0] == '{' ==> ReadValue(s) == ReadObject(SkipSpace(s[1..]))
    ensures s[0] == '[' ==> ReadValue(s) == ReadArray(SkipSpace(s[1..]))
    ensures s[0] != '{' && s[0] != '[' ==> ReadValue(s) == ReadScalar(s)
  {
  }

  lemma ReadOpening(s: string)
    requires s != "" && !IsSpace(s[0])
    ensures ReadValue("[" + s) == ReadArray(s)
    ensures ReadValue("{" + s) == ReadObject(s)
  {
  }

  lemma ReadWriteScalarValue(d: Doc, rest: string)
    requires IsScalar(d) && ValidDoc(d) && Delimits(rest)
    ensures ReadValue(Write(d) + rest) == Ok(Meaning(d), rest)
  {
    ScalarStart(d);
    assert (Write(d) + rest)[0] == Write(d)[0];
    Dispatch(Write(d) + rest);
    ReadWriteScalar(d, rest);
  }

  lemma WriteCompound(d: Doc, rest: string)
    ensures d.DArray? ==> Write(d) + rest == "[" + ElemsFrom(d, 0, rest)
    ensures d.DObject? ==> Write(d) + rest == "{" + MembersFrom(d, 0, rest)
  {
  }

  /** Reading the text of a document gives the value it stands for, and stops
      exactly where the document ends. */
  lemma {:induction false} ReadWrite(d: Doc, rest: string)
    requires ValidDoc(d) && Delimits(rest)
    ensures ReadValue(Write(d) + rest) == Ok(Meaning(d), rest)
    decreases d, 2, 0
  {
    WriteCompound(d, rest);
    if d.DArray? {
      ReadWriteArray(d, rest);
    } else if d.DObject? {
      ReadWriteObject(d, rest);
    } else {
      ReadWriteScalarValue(d, rest);
    }
  }

  /** The text of an array from element `i` on, comma included. */
  function ElemsFrom(d: Doc, i: nat, rest: string): string
    requires d.DArray? && i <= |d.elems|
  {
    WriteElems(d, i) + ("]" + rest)
  }

  /** The same without the leading comma. */
  function ElemText(d: Doc, i: nat, rest: string): string
    requires d.DArray? && i < |d.elems|
  {
    Write(d.elems[i]) + ElemsFrom(d, i + 1, rest)
  }

  lemma ElemsShape(d: Doc, i: nat, rest: string)
    requires d.DArray? && i <= |d.elems|
    ensures i == |d.elems| ==> ElemsFrom(d, i, rest) == "]" + rest
    ensures i < |d.elems| ==> ElemsFrom(d, i, rest) == Comma(i) + ElemText(d, i, rest)
  {
  }

  /** What follows an element, as the reader meets it. */
  lemma ElemsNext(d: Doc, i: nat, rest: string)
    requires d.DArray? && 0 < i <= |d.elems|
    ensures var t := ElemsFrom(d, i, rest);
      && t != "" && Delimits(t) && !IsSpace(t[0])
      && (i == |d.elems| ==> t[0] == ']' && t[1..] == rest)
      && (i < |d.elems| ==> t[0] == ',' && t[1..] == ElemText(d, i, rest))
  {
  }

  /** One step of the element reader. */
  lemma ReadElem(value: string, v: Json, tail: string, acc: seq<Json>)
    requires ReadValue(value + tail) == Ok(v, tail)
    requires tail != "" && !IsSpace(tail[0])
    ensures ReadElems(value + tail, acc)
         == (if tail[0] == ']' then Ok(Array(acc + [v]), tail[1..])
             else if tail[0] == ',' then ReadElems(tail[1..], acc + [v])
             else Fail)
  {
  }

  lemma {:induction false} ReadWriteElems(d: Doc, i: nat, rest: string)
    requires d.DArray? && i < |d.elems| && ValidDoc(d)
    ensures ReadElems(ElemText(d, i, rest), ElemMeanings(d, i)) == Ok(Meaning(d), rest)
    decreases d, 0, |d.elems| - i
  {
    var tail := ElemsFrom(d, i + 1, rest);
    ElemsNext(d, i + 1, rest);
    ReadWrite(d.elems[i], tail);
    ReadElem(Write(d.elems[i]), Meaning(d.elems[i]), tail, ElemMeanings(d, i));
    assert ElemMeanings(d, i + 1) == ElemMeanings(d, i) + [Meaning(d.elems[i])];
    if i + 1 < |d.elems| { ReadWriteElems(d, i + 1, rest); }
  }

  lemma {:induction false} ReadWriteArray(d: Doc, rest: string)
    requires d.DArray? && ValidDoc(d)
    ensures ReadValue("[" + ElemsFrom(d, 0, rest)) == Ok(Meaning(d), rest)
    decreases d, 1, 0
  {
    var u := ElemsFrom(d, 0, rest);
    ElemsShape(d, 0, rest);
    if d.elems == [] {
      assert u[1..] == rest;
    } else {
      WriteStart(d.elems[0]);
      assert u == ElemText(d, 0, rest) && u[0] == Write(d.elems[0])[0];
      ReadWriteElems(d, 0, rest);
    }
    ReadOpening(u);
  }

  /** The text of an object from member `i` on, comma included. */
  function MembersFrom(d: Doc, i: nat, rest: string): string
    requires d.DObject? && i <= |d.members|
  {
    WriteMembers(d, i) + ("}" + rest)
  }

  /** The same without the leading comma. */
  function MemberText(d: Doc, i: nat, rest: string): string
    requires d.DObject? && i < |d.members|
  {
    Quote(d.members[i].key) + (":" + (Write(d.members[i].value) + MembersFrom(d, i + 1, rest)))
  }

  lemma MembersShape(d: Doc, i: nat, rest: string)
    requires d.DObject? && i <= |d.members|
    ensures i == |d.members| ==> MembersFrom(d, i, rest) == "}" + rest
    ensures i < |d.members| ==> MembersFrom(d, i, rest) == Comma(i) + MemberText(d, i, rest)
    ensures i < |d.members| ==> MemberText(d, i, rest) != "" && MemberText(d, i, rest)[0] == '"'
  {
  }

  /** What follows a member, as the reader meets it. */
  lemma MembersNext(d: Doc, i: nat, rest: string)
    requires d.DObject? && 0 < i <= |d.members|
    ensures var t := MembersFrom(d, i, rest);
      && t != "" && Delimits(t) && !IsSpace(t[0])
      && (i == |d.members| ==> t[0] == '}' && t[1..] == rest)
      && (i < |d.members| ==> t[0] == ',' && SkipSpace(t[1..]) == MemberText(d, i, rest))
  {
    MembersShape(d, i, rest);
    assert !IsSpace('"') && !IsSpace(',') && !IsSpace('}');
    if i < |d.members| {
      NoSpace(MemberText(d, i, rest));
      assert ("," + MemberText(d, i, rest))[1..] == MemberText(d, i, rest);
    } else {
      assert ("}" + rest)[0] == '}' && ("}" + rest)[1..] == rest;
    }
  }

  /** One step of the member reader: key, colon, value. */
  lemma ReadMember(k: string, value: string, v: Json, tail: string, acc: map<string, Json>)
    requires ReadValue(value + tail) == Ok(v, tail)
    requires tail != "" && !IsSpace(tail[0])
    ensures ReadMembers(Quote(k) + (":" + (value + tail)), acc)
         == (if tail[0] == '}' then Ok(Object(acc[k := v]), tail[1..])
             else if tail[0] == ',' then ReadMembers(SkipSpace(tail[1..]), acc[k := v])
             else Fail)
  {
    var colon := ":" + (value + tail);
    var t := Quote(k) + colon;
    assert t[1..] == Escape(k) + "\"" + colon;
    ReadQuoted(k, colon);
    NoSpace(colon);
    assert colon[1..] == value + tail;
    NoSpace(tail);
  }

  lemma MemberStep(d: Doc, i: nat, rest: string)
    requires d.DObject? && i < |d.members|
    requires var v, tail := d.members[i].value, MembersFrom(d, i + 1, rest);
      ReadValue(Write(v) + tail) == Ok(Meaning(v), tail)
    ensures ReadMembers(MemberText(d, i, rest), MemberMeanings(d, i))
         == (if i + 1 == |d.members| then Ok(Object(MemberMeanings(d, i + 1)), rest)
             else ReadMembers(MemberText(d, i + 1, rest), MemberMeanings(d, i + 1)))
  {
    var k, v := d.members[i].key, d.members[i].value;
    MembersNext(d, i + 1, rest);
    ReadMember(k, Write(v), Meaning(v), MembersFrom(d, i + 1, rest), MemberMeanings(d, i));
  }

  lemma {:induction false} ReadWriteMembers(d: Doc, i: nat, rest: string)
    requires d.DObject? && i < |d.members| && ValidDoc(d)
    ensures ReadMembers(MemberText(d, i, rest), MemberMeanings(d, i)) == Ok(Meaning(d), rest)
    decreases d, 0, |d.members| - i
  {
    MembersNext(d, i + 1, rest);
    ReadWrite(d.members[i].value, MembersFrom(d, i + 1, rest));
    MemberStep(d, i, rest);
    if i + 1 < |d.members| { ReadWriteMembers(d, i + 1, rest); }
  }

  lemma {:induction false} ReadWriteObject(d: Doc, rest: string)
    requires d.DObject? && ValidDoc(d)
    ensures ReadValue("{" + MembersFrom(d, 0, rest)) == Ok(Meaning(d), rest)
    decreases d, 1, 0
  {
    var u := MembersFrom(d, 0, rest);
    MembersShape(d, 0, rest);
    if d.members == [] {
      assert u[1..] == rest;
    } else {
      assert u == MemberText(d, 0, rest);
      ReadWriteMembers(d, 0, rest);
    }
    ReadOpening(u);
  }
}
