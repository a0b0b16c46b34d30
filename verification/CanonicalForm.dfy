/**
 The main results about the canonical form: round trip, fixed point, equality of
 bytes, and blindness to member order.
 */
module CanonicalForm {
  import opened Json
  import opened Canonical
  import opened CanonicalNumber
  import opened CanonicalRoundTrip
  import Utf8

  // --- The printer writes the sorted document ---

  lemma {:induction false} PrintIsWrite(v: Json)
    ensures Print(v) == Write(Sorted(v))
    decreases v, 1, 0
  {
    match v
    case Array(_) => PrintElemsIsWrite(v, 0);
    case Object(members) => PrintMembersIsWrite(v, 0);
    case _ =>
  }

  lemma {:induction false} PrintElemsIsWrite(v: Json, i: nat)
    requires v.Array? && i <= |v.elems|
    ensures PrintElems(v, i) == WriteElems(Sorted(v), i)
    decreases v, 0, |v.elems| - i
  {
    if i < |v.elems| {
      PrintIsWrite(v.elems[i]);
      PrintElemsIsWrite(v, i + 1);
    }
  }

  lemma {:induction false} PrintMembersIsWrite(v: Json, i: nat)
    requires v.Object? && i <= |SortedKeys(v.members.Keys)|
    ensures PrintMembers(v, SortedKeys(v.members.Keys), i) == WriteMembers(Sorted(v), i)
    decreases v, 0, |SortedKeys(v.members.Keys)| - i
  {
    var keys := SortedKeys(v.members.Keys);
    if i < |keys| {
      assert keys[i] in keys;
      PrintIsWrite(v.members[keys[i]]);
      PrintMembersIsWrite(v, i + 1);
    }
  }

  // --- The sorted document stands for the normalised value ---

  predicate DistinctKeys(ms: seq<Member>) {
    forall i, j | 0 <= i < j < |ms| :: ms[i].key != ms[j].key
  }

  lemma LastMemberMeaning(d: Doc, n: nat)
    requires d.DObject? && 0 < n <= |d.members|
    ensures MemberMeanings(d, n)
         == MemberMeanings(d, n - 1)[d.members[n - 1].key := Meaning(d.members[n - 1].value)]
  {
  }

  /** With distinct keys every member is in the map under its key. */
  lemma {:induction false} DistinctMeanings(d: Doc, n: nat)
    requires d.DObject? && n <= |d.members| && DistinctKeys(d.members)
    ensures forall k :: k in MemberMeanings(d, n) <==> exists i | 0 <= i < n :: d.members[i].key == k
    ensures forall i | 0 <= i < n :: MemberMeanings(d, n)[d.members[i].key] == Meaning(d.members[i].value)
  {
    if n > 0 {
      var m := MemberMeanings(d, n - 1);
      DistinctMeanings(d, n - 1);
      LastMemberMeaning(d, n);
      assert forall i | 0 <= i < n - 1 :: d.members[i].key in m && d.members[i].key != d.members[n - 1].key;
    }
  }

  lemma SortedDistinct(v: Json)
    requires v.Object?
    ensures DistinctKeys(Sorted(v).members)
  {
    var keys := SortedKeys(v.members.Keys);
    forall i, j | 0 <= i < j < |keys| ensures keys[i] != keys[j] {
      KeyOrder(keys[i], keys[j], keys[i]);
    }
  }

  /** A document whose members are, under distinct keys, those of a map. */
  lemma ObjectMeaning(d: Doc, m: map<string, Json>)
    requires d.DObject? && DistinctKeys(d.members)
    requires forall i | 0 <= i < |d.members| ::
      d.members[i].key in m && Meaning(d.members[i].value) == m[d.members[i].key]
    requires forall k | k in m :: exists i | 0 <= i < |d.members| :: d.members[i].key == k
    ensures Meaning(d) == Object(m)
  {
    DistinctMeanings(d, |d.members|);
    assert MemberMeanings(d, |d.members|).Keys == m.Keys;
  }

  lemma {:induction false} SortedMeaning(v: Json)
    ensures Meaning(Sorted(v)) == Norm(v)
  {
    match v
    case Array(elems) =>
      forall i | 0 <= i < |elems| ensures Meaning(Sorted(elems[i])) == Norm(elems[i]) {
        SortedMeaning(elems[i]);
      }
    case Object(members) =>
      forall k | k in members ensures Meaning(Sorted(members[k])) == Norm(members[k]) {
        SortedMeaning(members[k]);
      }
      SortedDistinct(v);
      SortedHolds(v);
      ObjectMeaning(Sorted(v), Norm(v).members);
    case _ =>
  }

  lemma SortedHolds(v: Json)
    requires v.Object?
    ensures forall i | 0 <= i < |Sorted(v).members| ::
      var Member(k, d) := Sorted(v).members[i]; k in v.members && d == Sorted(v.members[k])
    ensures forall k | k in v.members :: exists i | 0 <= i < |Sorted(v).members| :: Sorted(v).members[i].key == k
  {
    var keys := SortedKeys(v.members.Keys);
    forall i | 0 <= i < |keys|
      ensures keys[i] in v.members && Sorted(v).members[i] == Member(keys[i], Sorted(v.members[keys[i]]))
    {
      assert keys[i] in keys;
    }
    forall k | k in v.members ensures exists i | 0 <= i < |Sorted(v).members| :: Sorted(v).members[i].key == k {
      assert k in keys;
      var i :| 0 <= i < |keys| && keys[i] == k;
      assert Sorted(v).members[i].key == k;
    }
  }

  lemma {:induction false} SortedValid(v: Json)
    requires Valid(v)
    ensures ValidDoc(Sorted(v))
  {
    match v
    case Number(lit) => NormLitKeepsValue(lit);
    case Array(elems) =>
      forall i | 0 <= i < |elems| ensures ValidDoc(Sorted(elems[i])) { SortedValid(elems[i]); }
    case Object(members) =>
      forall k | k in members ensures ValidDoc(Sorted(members[k])) { SortedValid(members[k]); }
    case _ =>
  }

  /** Normalising first makes no difference to what is printed. */
  lemma {:induction false} SortedNorm(v: Json)
    requires Valid(v)
    ensures Sorted(Norm(v)) == Sorted(v)
  {
    match v
    case Number(lit) => NormLitKeepsValue(lit);
    case Array(elems) =>
      forall i | 0 <= i < |elems| ensures Sorted(Norm(elems[i])) == Sorted(elems[i]) { SortedNorm(elems[i]); }
    case Object(members) =>
      assert Norm(v).members.Keys == members.Keys;
      forall k | k in members ensures Sorted(Norm(members[k])) == Sorted(members[k]) { SortedNorm(members[k]); }
    case _ =>
  }

  // --- Round trip ---

  /** Reading canonical text gives the printed value back, its whole floats as
      integers, and leaves untouched whatever follows. */
  lemma {:induction false} RoundTrip(v: Json, rest: string)
    requires Valid(v) && Delimits(rest)
    ensures ReadValue(Print(v) + rest) == Ok(Norm(v), rest)
  {
    SortedValid(v);
    SortedMeaning(v);
    PrintIsWrite(v);
    ReadWrite(Sorted(v), rest);
  }

  /** Two values share their canonical bytes exactly when they differ in nothing
      but the spelling of whole floats. */
  lemma SameBytes(v: Json, w: Json)
    requires Valid(v) && Valid(w)
    ensures Utf8.Encode(Print(v)) == Utf8.Encode(Print(w)) <==> Norm(v) == Norm(w)
  {
    Utf8.EncodeInjective(Print(v), Print(w));
    RoundTrip(v, "");
    RoundTrip(w, "");
    assert Print(v) + "" == Print(v) && Print(w) + "" == Print(w);
    PrintIsWrite(v);
    PrintIsWrite(w);
    SortedNorm(v);
    SortedNorm(w);
  }

  // --- Whole bodies ---

  /** What the decoder makes of a body: its first value; what follows is not read. */
  function Decode(body: string): (v: Parse<Json>) { ReadValue(body) }

  /** Everything the reader yields is well formed. */
  lemma {:induction false} ReadValid(s: string)
    ensures ReadValue(s).Ok? ==> Valid(ReadValue(s).value)
    decreases |s|, 1
  {
    var t := SkipSpace(s);
    if t == "" {
    } else if t[0] == '{' {
      var u := SkipSpace(t[1..]);
      ReadMembersValid(u, map[]);
    } else if t[0] == '[' {
      var u := SkipSpace(t[1..]);
      ReadElemsValid(u, []);
    } else {
      ScalarValid(t);
    }
  }

  lemma ScalarValid(t: string)
    requires t != ""
    ensures ReadScalar(t).Ok? ==> Valid(ReadScalar(t).value)
  {
    if NumberLen(t) > 0 { NumberPrefix(t); }
  }

  lemma {:induction false} ReadMembersValid(s: string, acc: map<string, Json>)
    requires Valid(Object(acc))
    ensures ReadMembers(s, acc).Ok? ==> Valid(ReadMembers(s, acc).value)
    decreases |s|, 2
  {
    if ReadMembers(s, acc).Ok? {
      var Ok(k, afterKey) := ReadString(s[1..]);
      var colon := SkipSpace(afterKey);
      ReadValid(colon[1..]);
      var Ok(v, afterValue) := ReadValue(colon[1..]);
      var next := SkipSpace(afterValue);
      if next[0] == ',' { ReadMembersValid(SkipSpace(next[1..]), acc[k := v]); }
    }
  }

  lemma {:induction false} ReadElemsValid(s: string, acc: seq<Json>)
    requires Valid(Array(acc))
    ensures ReadElems(s, acc).Ok? ==> Valid(ReadElems(s, acc).value)
    decreases |s|, 2
  {
    if ReadElems(s, acc).Ok? {
      ReadValid(s);
      var Ok(v, afterValue) := ReadValue(s);
      var next := SkipSpace(afterValue);
      if next[0] == ',' { ReadElemsValid(next[1..], acc + [v]); }
    }
  }

  /** The canonical text of a body, when it decodes. */
  ghost function CanonicalText(body: string): (r: Parse<string>) {
    match Decode(body)
    case Fail => Fail
    case Ok(v, rest) => Ok(Print(v), rest)
  }

  /** Canonical text is its own canonical text, for every body that decodes. */
  lemma Idempotent(body: string)
    requires CanonicalText(body).Ok?
    ensures CanonicalText(CanonicalText(body).value) == Ok(CanonicalText(body).value, "")
  {
    var v := Decode(body).value;
    ReadValid(body);
    RoundTrip(v, "");
    assert Print(v) + "" == Print(v);
    PrintIsWrite(v);
    PrintIsWrite(Norm(v));
    SortedNorm(v);
  }

  /** Two bodies get the same canonical bytes exactly when they decode to values
      that differ only in the spelling of whole floats. */
  lemma SameCanonicalBytes(a: string, b: string)
    requires Decode(a).Ok? && Decode(b).Ok?
    ensures Utf8.Encode(CanonicalText(a).value) == Utf8.Encode(CanonicalText(b).value)
       <==> Norm(Decode(a).value) == Norm(Decode(b).value)
  {
    ReadValid(a);
    ReadValid(b);
    SameBytes(Decode(a).value, Decode(b).value);
  }

  // --- Member order ---

  /** Where `k` is among the keys of `ms`. */
  function KeyIndex(ms: seq<Member>, k: string): (i: nat)
    ensures i <= |ms|
    ensures i < |ms| ==> ms[i].key == k
  {
    if ms == [] || ms[0].key == k then 0 else 1 + KeyIndex(ms[1..], k)
  }

  /** The same document with the members of any objects in it, at any depth,
      in another order. */
  ghost predicate Rearranged(a: Doc, b: Doc) {
    match a
    case DArray(xs) =>
      b.DArray? && |b.elems| == |xs| && forall i | 0 <= i < |xs| :: Rearranged(xs[i], b.elems[i])
    case DObject(ms) =>
      && b.DObject? && |b.members| == |ms|
      && DistinctKeys(ms) && DistinctKeys(b.members)
      && (forall i | 0 <= i < |ms| ::
            var j := KeyIndex(b.members, ms[i].key);
            j < |b.members| && Rearranged(ms[i].value, b.members[j].value))
      && (forall j | 0 <= j < |b.members| :: KeyIndex(ms, b.members[j].key) < |ms|)
    case _ => a == b
  }

  lemma {:induction false} RearrangedMeaning(a: Doc, b: Doc)
    requires Rearranged(a, b)
    ensures Meaning(a) == Meaning(b)
  {
    match a
    case DArray(xs) =>
      forall i | 0 <= i < |xs| ensures Meaning(xs[i]) == Meaning(b.elems[i]) {
        RearrangedMeaning(xs[i], b.elems[i]);
      }
      assert ElemMeanings(a, |xs|) == ElemMeanings(b, |xs|);
    case DObject(ms) =>
      forall i | 0 <= i < |ms|
        ensures Meaning(ms[i].value) == Meaning(b.members[KeyIndex(b.members, ms[i].key)].value)
      {
        RearrangedMeaning(ms[i].value, b.members[KeyIndex(b.members, ms[i].key)].value);
      }
      RearrangedObject(a, b);
    case _ =>
  }

  lemma RearrangedObject(a: Doc, b: Doc)
    requires a.DObject? && b.DObject? && DistinctKeys(a.members) && DistinctKeys(b.members)
    requires forall i | 0 <= i < |a.members| ::
      var j := KeyIndex(b.members, a.members[i].key);
      j < |b.members| && Meaning(a.members[i].value) == Meaning(b.members[j].value)
    requires forall j | 0 <= j < |b.members| :: KeyIndex(a.members, b.members[j].key) < |a.members|
    ensures Meaning(a) == Meaning(b)
  {
    var m := MemberMeanings(b, |b.members|);
    DistinctMeanings(b, |b.members|);
    forall i | 0 <= i < |a.members|
      ensures a.members[i].key in m && m[a.members[i].key] == Meaning(a.members[i].value)
    {
      assert b.members[KeyIndex(b.members, a.members[i].key)].key == a.members[i].key;
    }
    forall k | k in m ensures exists i | 0 <= i < |a.members| :: a.members[i].key == k {
      assert a.members[KeyIndex(a.members, k)].key == k;
    }
    ObjectMeaning(a, m);
  }

  /** However two bodies are spelt, with whatever white space and escapes: if they decode
      to what two documents stand for that differ only in the order of members, at any
      depth, they have the same canonical text. */
  lemma {:induction false} OrderIndependent(x: string, y: string, a: Doc, b: Doc)
    requires Decode(x).Ok? && Decode(x).value == Meaning(a)
    requires Decode(y).Ok? && Decode(y).value == Meaning(b)
    requires Rearranged(a, b)
    ensures CanonicalText(x).Ok? && CanonicalText(y).Ok?
    ensures CanonicalText(x).value == CanonicalText(y).value
  {
    RearrangedMeaning(a, b);
  }

  /** Every valid document has such a body: its compact text. */
  lemma CompactDecodes(d: Doc)
    requires ValidDoc(d)
    ensures Decode(Write(d)) == Ok(Meaning(d), "")
  {
    ReadWrite(d, "");
    assert Write(d) + "" == Write(d);
  }
}
