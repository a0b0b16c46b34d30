/**
 Loan references: a two-character prefix, six characters of five random bits each
 and a check character (pkg/loanref/loanref.go). Strings are bytes.
 */
module LoanRef {
  type Byte = x: int | 0 <= x < 256 witness 0
  type Text = seq<Byte>

  datatype Result = Ok(reference: Text) | BadPrefix

  /** "0123456789ABCDEFGHJKMNPQRSTVWXYZ" */
  const ALPHABET: Text := [
    48, 49, 50, 51, 52, 53, 54, 55, 56, 57,
    65, 66, 67, 68, 69, 70, 71, 72, 74, 75, 77, 78, 80, 81, 82, 83, 84, 86, 87, 88, 89, 90]

  const PREFIX_LEN := 2
  const RANDOM_LEN := 6
  const REFERENCE_LEN := PREFIX_LEN + RANDOM_LEN + 1

  // The alphabet in ranges: digits, A-H, J-K, M-N, P-T, V-Z.

  predicate Coded(c: Byte) {
    48 <= c <= 57 || 65 <= c <= 72 || 74 <= c <= 75 || 77 <= c <= 78 || 80 <= c <= 84 || 86 <= c <= 90
  }

  function Letter(i: nat): Byte
    requires i < 32
  {
    if i < 10 then 48 + i else if i < 18 then 55 + i else if i < 20 then 56 + i
    else if i < 22 then 57 + i else if i < 27 then 58 + i else 59 + i
  }

  /** The position of a character of the alphabet; -1 for every other. */
  function Value(c: Byte): (v: int)
    ensures if Coded(c) then 0 <= v < 32 && Letter(v) == c else v == -1
  {
    if !Coded(c) then -1 else if c <= 57 then c - 48 else if c <= 72 then c - 55 else if c <= 75 then c - 56
    else if c <= 78 then c - 57 else if c <= 84 then c - 58 else c - 59
  }

  lemma ValueOf(i: nat)
    requires i < 32
    ensures Coded(Letter(i)) && Value(Letter(i)) == i
  {
  }

  lemma OnlyLetter(i: nat)
    requires i < 32
    ensures forall c: Byte :: Value(c) == i <==> c == Letter(i)
  {
  }

  lemma AlphabetIsLetters()
    ensures |ALPHABET| == 32 && forall i | 0 <= i < 32 :: ALPHABET[i] == Letter(i)
    ensures forall c: Byte :: c in ALPHABET <==> Coded(c)
  {
    forall c: Byte | Coded(c) ensures c in ALPHABET {
      assert ALPHABET[Value(c)] == c;
    }
  }

  // --- The format ---

  ghost predicate InAlphabet(t: Text) { forall i | 0 <= i < |t| :: Coded(t[i]) }

  ghost predicate IsPrefix(prefix: Text) { |prefix| == PREFIX_LEN && InAlphabet(prefix) }

  ghost function Total(body: Text): int {
    if body == [] then 0 else Total(body[..|body| - 1]) + Value(body[|body| - 1])
  }

  ghost function Check(body: Text): Byte { Letter(Total(body) % 32) }

  ghost predicate Accepts(prefix: Text, ref: Text) {
    |ref| == REFERENCE_LEN && prefix <= ref && InAlphabet(ref[..8]) && ref[8] == Check(ref[..8])
  }

  /** The low five bits: `b & 0x1f` on a byte. */
  function Low(b: Byte): (n: nat)
    ensures n < 32
  { b % 32 }

  ghost function Body(prefix: Text, seed: Text): Text
    requires |seed| >= RANDOM_LEN
  {
    prefix + seq(RANDOM_LEN, i requires 0 <= i < RANDOM_LEN => Letter(Low(seed[i])))
  }

  ghost function Generated(prefix: Text, seed: Text): Text
    requires |seed| >= RANDOM_LEN
  {
    Body(prefix, seed) + [Check(Body(prefix, seed))]
  }

  // --- The package ---

  class References {
    const alphabetIndex: array<int>

    ghost predicate Valid()
      reads this, alphabetIndex
    {
      alphabetIndex.Length == 256 && forall c: Byte :: alphabetIndex[c] == Value(c)
    }

    constructor ()
      ensures Valid() && fresh(alphabetIndex)
    {
      AlphabetIsLetters();
      var letters, table := ALPHABET, new int[256](_ => -1);
      for i := 0 to |letters|
        invariant forall c: Byte :: table[c] == if 0 <= Value(c) < i then Value(c) else -1
      {
        OnlyLetter(i);
        table[letters[i]] := i;
      }
      alphabetIndex := table;
    }

    method ValidatePrefix(prefix: Text) returns (ok: bool)
      requires Valid()
      ensures ok <==> IsPrefix(prefix)
    {
      if |prefix| != PREFIX_LEN {
        return false;
      }
      for i := 0 to |prefix|
        invariant forall j | 0 <= j < i :: Coded(prefix[j])
      {
        if alphabetIndex[prefix[i]] < 0 {
          return false;
        }
      }
      return true;
    }

    method CheckChar(body: Text) returns (c: Byte)
      requires Valid() && InAlphabet(body)
      ensures c == Check(body)
    {
      var sum := 0;
      for i := 0 to |body|
        invariant sum == Total(body[..i]) && sum >= 0
      {
        assert body[..i + 1][..i] == body[..i];
        sum := sum + alphabetIndex[body[i]];
      }
      assert body[..|body|] == body;
      AlphabetIsLetters();
      c := ALPHABET[sum % |ALPHABET|];
    }

    method Validate(prefix: Text, ref: Text) returns (ok: bool)
      requires Valid()
      ensures ok <==> Accepts(prefix, ref)
    {
      if |ref| != REFERENCE_LEN {
        return false;
      }
      if !(prefix <= ref) {
        return false;
      }
      var body := ref[..REFERENCE_LEN - 1];
      for i := 0 to |body|
        invariant forall j | 0 <= j < i :: Coded(body[j])
      {
        if alphabetIndex[body[i]] < 0 {
          return false;
        }
      }
      var c := CheckChar(body);
      ok := c == ref[REFERENCE_LEN - 1];
    }

    /** Generate with its random bytes given, and GenerateDeterministic with its
        seed: both read the first six bytes. */
    method Generate(prefix: Text, seed: Text) returns (r: Result)
      requires Valid() && |seed| >= RANDOM_LEN
      ensures r == if IsPrefix(prefix) then Ok(Generated(prefix, seed)) else BadPrefix
      ensures r.Ok? ==> Accepts(prefix, r.reference)
    {
      var ok := ValidatePrefix(prefix);
      if !ok {
        return BadPrefix;
      }
      var body := new Byte[PREFIX_LEN + RANDOM_LEN](_ => 0);
      for i := 0 to PREFIX_LEN
        invariant body[..i] == prefix[..i]
      {
        body[i] := prefix[i];
      }
      for i := 0 to RANDOM_LEN
        invariant body[..PREFIX_LEN + i] == Body(prefix, seed)[..PREFIX_LEN + i]
      {
        AlphabetIsLetters();
        body[PREFIX_LEN + i] := ALPHABET[Low(seed[i])];
      }
      assert body[..] == Body(prefix, seed);
      GeneratedAccepted(prefix, seed);
      var c := CheckChar(body[..]);
      r := Ok(body[..] + [c]);
    }
  }

  // --- What the format guarantees ---

  lemma GeneratedAccepted(prefix: Text, seed: Text)
    requires IsPrefix(prefix) && |seed| >= RANDOM_LEN
    ensures InAlphabet(Body(prefix, seed)) && Accepts(prefix, Generated(prefix, seed))
  {
  }

  /** Validate accepts exactly what the generators produce. */
  lemma ImageExactly(prefix: Text, ref: Text)
    requires IsPrefix(prefix)
    ensures Accepts(prefix, ref) <==> exists seed: Text :: |seed| == 16 && Generated(prefix, seed) == ref
  {
    if Accepts(prefix, ref) {
      var seed: Text := seq(16, i requires 0 <= i < 16 => if i < RANDOM_LEN then Seed(ref, i) else 0);
      var body := Body(prefix, seed);
      forall i | 0 <= i < 8 ensures body[i] == ref[..8][i] {
        assert Coded(ref[..8][i]);
      }
      assert body == ref[..8];
      assert Generated(prefix, seed) == ref;
    }
    forall seed: Text | |seed| == 16 && Generated(prefix, seed) == ref ensures Accepts(prefix, ref) {
      GeneratedAccepted(prefix, seed);
    }
  }

  ghost function Seed(ref: Text, i: nat): Byte
    requires |ref| == REFERENCE_LEN && i < RANDOM_LEN && Coded(ref[PREFIX_LEN + i])
  {
    Value(ref[PREFIX_LEN + i])
  }

  lemma {:induction false} TotalUpdate(body: Text, i: nat, c: Byte)
    requires i < |body|
    ensures Total(body[i := c]) == Total(body) - Value(body[i]) + Value(c)
  {
    var n := |body| - 1;
    if i == n {
      assert body[i := c][..n] == body[..n];
    } else {
      assert body[i := c][..n] == body[..n][i := c];
      TotalUpdate(body[..n], i, c);
    }
  }

  lemma SameResidue(x: int, y: int)
    ensures x % 32 == y % 32 <==> (x - y) % 32 == 0
  {
  }

  lemma ResiduesMove(x: int, y: int)
    ensures (y % 32 - x % 32 - (y - x)) % 32 == 0
  {
    assert y % 32 - x % 32 - (y - x) == 32 * (x / 32 - y / 32);
  }

  lemma SameCheck(a: Text, b: Text)
    ensures Check(a) == Check(b) <==> (Total(a) - Total(b)) % 32 == 0
  {
    ValueOf(Total(a) % 32);
    ValueOf(Total(b) % 32);
    SameResidue(Total(a), Total(b));
  }

  /** What the check character is: '0' for a body of zeros, and it moves round the alphabet
      by as much as any one character of the body does. */
  lemma CheckMoves(body: Text, i: nat, c: Byte)
    requires i < |body|
    ensures Coded(Check(body)) && Coded(Check(body[i := c]))
    ensures (Value(Check(body[i := c])) - Value(Check(body)) - (Value(c) - Value(body[i]))) % 32 == 0
  {
    TotalUpdate(body, i, c);
    ValueOf(Total(body) % 32);
    ValueOf(Total(body[i := c]) % 32);
    ResiduesMove(Total(body), Total(body[i := c]));
  }

  lemma {:induction false} ZerosCheck(n: nat)
    ensures Total(seq(n, _ => 48)) == 0 && Check(seq(n, _ => 48)) == 48
  {
    var body: Text := seq(n, _ => 48);
    if n > 0 {
      ZerosCheck(n - 1);
      assert body[..n - 1] == seq(n - 1, _ => 48);
    }
  }

  lemma OtherLetterOtherCheck(body: Text, i: nat, c: Byte)
    requires i < |body| && Coded(body[i]) && Coded(c) && c != body[i]
    ensures Check(body[i := c]) != Check(body)
  {
    TotalUpdate(body, i, c);
    SameCheck(body[i := c], body);
    var error := Value(c) - Value(body[i]);
    assert -32 < error < 32 && error != 0;
  }

  /** Every single wrong character is caught. */
  lemma TypoCaught(prefix: Text, ref: Text, i: nat, c: Byte)
    requires Accepts(prefix, ref) && i < |ref| && c != ref[i]
    ensures !Accepts(prefix, ref[i := c])
  {
    var body, typed := ref[..8], ref[i := c];
    if i < 8 {
      assert typed[..8] == body[i := c] && body[i] == ref[i];
      if Coded(c) {
        OtherLetterOtherCheck(body, i, c);
      } else {
        assert typed[..8][i] == c;
      }
    } else {
      assert typed[..8] == body;
    }
  }

  /** Two references under one prefix differ in at least two places. */
  lemma TwoApart(prefix: Text, a: Text, b: Text)
    requires Accepts(prefix, a) && Accepts(prefix, b) && a != b
    ensures exists i, j :: 0 <= i < j < REFERENCE_LEN && a[i] != b[i] && a[j] != b[j]
  {
    var i :| 0 <= i < REFERENCE_LEN && a[i] != b[i];
    TypoCaught(prefix, a, i, b[i]);
    assert a[i := b[i]] != b;
    var j :| 0 <= j < REFERENCE_LEN && a[i := b[i]][j] != b[j];
    assert j != i && a[j] != b[j];
    assert i < j || j < i;
  }

  /** Two wrong characters after the prefix pass exactly when both are in the
      alphabet and their errors cancel modulo 32. */
  lemma DoubleTypoExactly(prefix: Text, ref: Text, i: nat, c: Byte, j: nat, d: Byte)
    requires IsPrefix(prefix) && Accepts(prefix, ref) && PREFIX_LEN <= i < j < 8
    ensures Accepts(prefix, ref[i := c][j := d]) <==>
      Coded(c) && Coded(d) && (Value(c) + Value(d) - Value(ref[i]) - Value(ref[j])) % 32 == 0
  {
    var body, typed := ref[..8], ref[i := c][j := d];
    assert typed[..8] == body[i := c][j := d];
    TotalUpdate(body, i, c);
    TotalUpdate(body[i := c], j, d);
    SameCheck(typed[..8], body);
    assert prefix <= typed by { assert typed[..2] == ref[..2]; }
    if Accepts(prefix, typed) {
      assert typed[..8][i] == c && typed[..8][j] == d;
    } else if Coded(c) && Coded(d) {
      assert forall k | 0 <= k < 8 :: typed[..8][k] == if k == i then c else if k == j then d else body[k];
    }
  }

  /** Swapping two of the random characters is never caught. */
  lemma SwapNeverCaught(prefix: Text, ref: Text, i: nat, j: nat)
    requires IsPrefix(prefix) && Accepts(prefix, ref) && PREFIX_LEN <= i < j < 8
    ensures Accepts(prefix, ref[i := ref[j]][j := ref[i]])
  {
    assert Coded(ref[..8][i]) && Coded(ref[..8][j]);
    DoubleTypoExactly(prefix, ref, i, ref[j], j, ref[i]);
  }

  /** Two seeds give the same reference exactly when the low five bits of their
      first six bytes agree. */
  lemma SeedsCollideExactly(prefix: Text, s: Text, t: Text)
    requires IsPrefix(prefix) && |s| == 16 && |t| == 16
    ensures Generated(prefix, s) == Generated(prefix, t) <==> forall i | 0 <= i < RANDOM_LEN :: Low(s[i]) == Low(t[i])
  {
    if Generated(prefix, s) == Generated(prefix, t) {
      forall i | 0 <= i < RANDOM_LEN ensures Low(s[i]) == Low(t[i]) {
        assert Generated(prefix, s)[PREFIX_LEN + i] == Letter(Low(s[i]));
        assert Generated(prefix, t)[PREFIX_LEN + i] == Letter(Low(t[i]));
        ValueOf(Low(s[i]));
        ValueOf(Low(t[i]));
      }
    }
    if forall i | 0 <= i < RANDOM_LEN :: Low(s[i]) == Low(t[i]) {
      assert Body(prefix, s) == Body(prefix, t);
    }
  }
}
