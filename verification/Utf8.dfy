/**
 UTF-8 as Go strings use it. A Go string sorts by its bytes, and the signer on
 the other side sorts by code point; `ByteOrderIsRuneOrder` says the two agree.
 */
module Utf8 {

  type byte = b: int | 0 <= b < 256

  function EncodeRune(c: char): (bs: seq<byte>)
    ensures 1 <= |bs| <= 4
  {
    var r := c as int;
    if r < 0x80 then [r]
    else if r < 0x800 then [0xC0 + r / 64, 0x80 + r % 64]
    else if r < 0x1_0000 then [0xE0 + r / 4096, 0x80 + r / 64 % 64, 0x80 + r % 64]
    else [0xF0 + r / 262144, 0x80 + r / 4096 % 64, 0x80 + r / 64 % 64, 0x80 + r % 64]
  }

  /** The payload of a form: what its lead byte adds to `lead`, then six bits a byte. */
  function Payload(bs: seq<byte>, lead: int): int
    requires bs != []
  {
    if |bs| == 1 then bs[0] as int - lead else 64 * Payload(bs[..|bs| - 1], lead) + (bs[|bs| - 1] as int - 0x80)
  }

  /** The lead byte's mark, by the length of the form. */
  function Lead(n: nat): int { if n == 1 then 0 else if n == 2 then 0xC0 else if n == 3 then 0xE0 else 0xF0 }

  /** The least code point that needs the form. */
  function Least(n: nat): int { if n == 1 then 0 else if n == 2 then 0x80 else if n == 3 then 0x800 else 0x1_0000 }

  /** RFC 3629 section 3: the shortest form that holds the code point, its bits in the
      payload, every byte after the lead marked as a continuation. */
  lemma EncodeRuneIsUtf8(c: char)
    ensures var bs := EncodeRune(c);
      && Payload(bs, Lead(|bs|)) == c as int
      && Least(|bs|) <= c as int && (|bs| < 4 ==> (c as int) < Least(|bs| + 1))
      && forall i | 0 < i < |bs| :: 0x80 <= bs[i] < 0xC0
  {
    var r, bs := c as int, EncodeRune(c);
    Quotients(r);
    if |bs| == 2 {
      assert bs[..1] == [bs[0]];
    } else if |bs| == 3 {
      assert bs[..2] == [bs[0], bs[1]] && bs[..2][..1] == [bs[0]];
      assert Payload(bs[..2], 0xE0) == r / 64;
    } else if |bs| == 4 {
      assert bs[..3] == [bs[0], bs[1], bs[2]] && bs[..3][..2] == [bs[0], bs[1]] && bs[..3][..2][..1] == [bs[0]];
      assert Payload(bs[..3][..2], 0xF0) == r / 4096;
      assert Payload(bs[..3], 0xF0) == r / 64;
    }
  }

  function Encode(s: string): (bs: seq<byte>) {
    if s == "" then [] else EncodeRune(s[0]) + Encode(s[1..])
  }

  lemma {:induction false} EncodeConcat(a: string, b: string)
    ensures Encode(a + b) == Encode(a) + Encode(b)
  {
    if a == "" {
      assert a + b == b;
    } else {
      EncodeConcat(a[1..], b);
      assert (a + b)[0] == a[0] && (a + b)[1..] == a[1..] + b;
      Associative(EncodeRune(a[0]), Encode(a[1..]), Encode(b));
    }
  }

  lemma Associative(a: seq<byte>, b: seq<byte>, c: seq<byte>)
    ensures a + (b + c) == a + b + c
  {
  }

  // --- Orders ---

  /** Lexicographic order of byte strings: what sort.Strings compares. */
  predicate BytesLess(a: seq<byte>, b: seq<byte>) {
    b != [] && (a == [] || a[0] < b[0] || (a[0] == b[0] && BytesLess(a[1..], b[1..])))
  }

  /** Lexicographic order of code points. */
  predicate RunesLess(a: string, b: string) {
    b != "" && (a == "" || a[0] < b[0] || (a[0] == b[0] && RunesLess(a[1..], b[1..])))
  }

  lemma {:induction false} CommonPrefix(p: seq<byte>, a: seq<byte>, b: seq<byte>)
    ensures BytesLess(p + a, p + b) <==> BytesLess(a, b)
  {
    if p == [] {
      assert p + a == a && p + b == b;
    } else {
      CommonPrefix(p[1..], a, b);
      assert (p + a)[1..] == p[1..] + a && (p + b)[1..] == p[1..] + b;
    }
  }

  /** The first differing byte decides, whatever follows. */
  lemma {:induction false} FirstDifference(a: seq<byte>, b: seq<byte>, i: nat)
    requires i < |a| && i < |b| && a[..i] == b[..i] && a[i] < b[i]
    ensures BytesLess(a, b) && !BytesLess(b, a)
  {
    if i > 0 {
      assert a[0] == a[..i][0] == b[..i][0] == b[0];
      assert a[1..][..i - 1] == a[..i][1..] == b[..i][1..] == b[1..][..i - 1];
      FirstDifference(a[1..], b[1..], i - 1);
    }
  }

  /** Base-64 digits compare from the most significant down. */
  lemma Digits(x: nat, y: nat)
    requires x < y
    ensures x / 64 < y / 64 || (x / 64 == y / 64 && x % 64 < y % 64)
  {
  }

  lemma Quotients(x: nat)
    ensures x / 64 / 64 == x / 4096 && x / 4096 / 64 == x / 262144
  {
  }

  lemma ShortRunesPart(a: char, b: char) returns (i: nat)
    requires a < b < 0x800 as char
    ensures i < |EncodeRune(a)| && i < |EncodeRune(b)|
    ensures EncodeRune(a)[..i] == EncodeRune(b)[..i] && EncodeRune(a)[i] < EncodeRune(b)[i]
  {
    var r, q := a as int, b as int;
    Digits(r, q);
    i := if r >= 0x80 && r / 64 == q / 64 then 1 else 0;
  }

  /** Where the encodings of two different code points part. */
  lemma RunesPart(a: char, b: char) returns (i: nat)
    requires a < b
    ensures i < |EncodeRune(a)| && i < |EncodeRune(b)|
    ensures EncodeRune(a)[..i] == EncodeRune(b)[..i] && EncodeRune(a)[i] < EncodeRune(b)[i]
  {
    var r, q := a as int, b as int;
    if q < 0x800 {
      i := ShortRunesPart(a, b);
      return;
    }
    i := 0;
    if |EncodeRune(a)| == |EncodeRune(b)| {
      Quotients(r);
      Quotients(q);
      Digits(r, q);
      if r / 64 == q / 64 {
        i := |EncodeRune(a)| - 1;
      } else {
        Digits(r / 64, q / 64);
        if q < 0x1_0000 {
          i := if r / 4096 < q / 4096 then 0 else 1;
        } else if r / 4096 == q / 4096 {
          i := 2;
        } else {
          Digits(r / 4096, q / 4096);
          i := if r / 262144 < q / 262144 then 0 else 1;
        }
      }
    }
  }

  lemma SmallerRuneFirst(a: char, s: seq<byte>, b: char, t: seq<byte>)
    requires a < b
    ensures BytesLess(EncodeRune(a) + s, EncodeRune(b) + t)
    ensures !BytesLess(EncodeRune(b) + t, EncodeRune(a) + s)
  {
    var i := RunesPart(a, b);
    var x, y := EncodeRune(a) + s, EncodeRune(b) + t;
    assert x[..i] == EncodeRune(a)[..i] && y[..i] == EncodeRune(b)[..i];
    FirstDifference(x, y, i);
  }

  /** Sorting Go strings by byte is sorting them by code point. */
  lemma {:induction false} ByteOrderIsRuneOrder(s: string, t: string)
    ensures BytesLess(Encode(s), Encode(t)) <==> RunesLess(s, t)
  {
    if s != "" && t != "" {
      if s[0] == t[0] {
        ByteOrderIsRuneOrder(s[1..], t[1..]);
        CommonPrefix(EncodeRune(s[0]), Encode(s[1..]), Encode(t[1..]));
      } else if s[0] < t[0] {
        SmallerRuneFirst(s[0], Encode(s[1..]), t[0], Encode(t[1..]));
      } else {
        SmallerRuneFirst(t[0], Encode(t[1..]), s[0], Encode(s[1..]));
      }
    }
  }

  // --- Code point order is a strict total order, and encoding loses nothing ---

  lemma {:induction false} RunesIrreflexive(s: string)
    ensures !RunesLess(s, s)
  {
    if s != "" { RunesIrreflexive(s[1..]); }
  }

  lemma {:induction false} RunesTransitive(s: string, t: string, u: string)
    requires RunesLess(s, t) && RunesLess(t, u)
    ensures RunesLess(s, u)
  {
    if s != "" && s[0] == t[0] == u[0] { RunesTransitive(s[1..], t[1..], u[1..]); }
  }

  lemma {:induction false} RunesTotal(s: string, t: string)
    ensures s == t || RunesLess(s, t) || RunesLess(t, s)
  {
    if s != "" && t != "" && s[0] == t[0] {
      RunesTotal(s[1..], t[1..]);
      assert s == [s[0]] + s[1..] && t == [t[0]] + t[1..];
    }
  }

  lemma EncodeInjective(s: string, t: string)
    ensures Encode(s) == Encode(t) <==> s == t
  {
    RunesTotal(s, t);
    RunesIrreflexive(s);
    RunesIrreflexive(t);
    ByteOrderIsRuneOrder(s, t);
    ByteOrderIsRuneOrder(t, s);
    ByteOrderIsRuneOrder(s, s);
  }
}
