/**
 Number literals in the canonical form: a whole float becomes the integer
 literal of the same number, and nothing else changes.
 */
module CanonicalNumber {
  import opened Json
  import opened Canonical

  function Dec(s: string): nat
    requires forall i | 0 <= i < |s| :: IsDigit(s[i])
  {
    if s == "" then 0
    else
      assert IsDigit(s[|s| - 1]);
      10 * Dec(s[..|s| - 1]) + (s[|s| - 1] as int - '0' as int)
  }

  /** 10 to the power `e`. */
  function Pow10(e: int): (p: real)
    ensures p > 0.0
    decreases if e < 0 then -e else e
  {
    if e == 0 then 1.0 else if e > 0 then 10.0 * Pow10(e - 1) else Pow10(e + 1) / 10.0
  }

  /** The digits of a fraction, without its point. */
  function FracDigits(s: string): (r: string)
    requires FracLen(s) >= 0
    ensures forall i | 0 <= i < |r| :: IsDigit(r[i])
  {
    if FracLen(s) == 0 then "" else s[1..][..DigitRun(s[1..])]
  }

  function Exponent(s: string): int
    requires ExpLen(s) >= 0
  {
    if ExpLen(s) == 0 then 0
    else
      var t := s[1..];
      var digits := t[ExpSignLen(t)..];
      var n: int := Dec(digits[..DigitRun(digits)]);
      if t[0] == '-' then -n else n
  }

  function IntDigits(s: string): (r: string)
    ensures forall i | 0 <= i < |r| :: IsDigit(r[i])
  {
    s[..IntLen(s)]
  }

  /** The number a literal denotes. */
  function Value(lit: string): real
    requires IsNumber(lit)
  {
    var t := lit[SignLen(lit)..];
    var tail := t[IntLen(t)..];
    var f := FracDigits(tail);
    var magnitude := (Dec(IntDigits(t)) as real + Dec(f) as real / Pow10(|f|)) * Pow10(Exponent(tail[FracLen(tail)..]));
    if SignLen(lit) == 1 then -magnitude else magnitude
  }

  lemma {:induction false} DecZeros(s: string)
    requires forall i | 0 <= i < |s| :: s[i] == '0'
    ensures Dec(s) == 0
  {
    if s != "" { DecZeros(s[..|s| - 1]); }
  }

  lemma {:induction false} DigitRunAll(s: string)
    requires forall i | 0 <= i < |s| :: IsDigit(s[i])
    ensures DigitRun(s) == |s|
  {
  }

  lemma SliceOfSlice(s: string, g: nat, n: nat)
    requires g + n <= |s|
    ensures s[..g + n][g..] == s[g..][..n]
  {
  }

  /** A whole float is a sign, an integer part, a point and zeros; cutting at
      the point leaves sign and integer part. */
  lemma WholeFloatShape(lit: string)
    requires WholeFloat(lit)
    ensures var g := SignLen(lit);
      var n := DigitRun(lit[g..]);
      && NormLit(lit) == lit[..g + n]
      && SignLen(NormLit(lit)) == g
      && NormLit(lit)[g..] == lit[g..][..n]
      && DigitRun(NormLit(lit)[g..]) == n
  {
  }

  lemma IntegerIsNumber(s: string)
    requires var t := s[SignLen(s)..]; IntLen(t) > 0 && IntLen(t) == |t|
    ensures IsNumber(s)
    ensures IntDigits(s[SignLen(s)..]) == s[SignLen(s)..]
    ensures Value(s) == (if SignLen(s) == 1 then -(Dec(s[SignLen(s)..]) as real) else Dec(s[SignLen(s)..]) as real)
  {
  }

  /** In a valid literal the integer part has no spare leading zero. */
  lemma NoLeadingZero(lit: string)
    requires IsNumber(lit)
    ensures var t := lit[SignLen(lit)..]; IntLen(t) == DigitRun(t)
  {
  }

  lemma WholeFloatParts(lit: string)
    requires IsNumber(lit) && WholeFloat(lit)
    ensures var t := lit[SignLen(lit)..];
      && IntLen(t) == DigitRun(t)
      && FracLen(t[IntLen(t)..]) == |t| - IntLen(t)
  {
    NoLeadingZero(lit);
    var t := lit[SignLen(lit)..];
    var n := DigitRun(t);
    assert t[n] == lit[SignLen(lit) + n] == '.';
    var zeros := t[n..][1..];
    forall i | 0 <= i < |zeros| ensures zeros[i] == '0' {
      assert zeros[i] == lit[SignLen(lit) + n + 1 + i];
    }
    DigitRunAll(zeros);
  }

  lemma WholeFloatValue(lit: string)
    requires IsNumber(lit) && WholeFloat(lit)
    ensures var t := lit[SignLen(lit)..];
      Value(lit) == (if SignLen(lit) == 1 then -(Dec(IntDigits(t)) as real) else Dec(IntDigits(t)) as real)
  {
    var t := lit[SignLen(lit)..];
    var tail := t[IntLen(t)..];
    WholeFloatParts(lit);
    var f := FracDigits(tail);
    forall i | 0 <= i < |f| ensures f[i] == '0' {
      assert f[i] == tail[1 + i] == t[IntLen(t) + 1 + i] == lit[SignLen(lit) + IntLen(t) + 1 + i];
    }
    DecZeros(f);
    assert tail[FracLen(tail)..] == "";
    assert Exponent("") == 0 && Pow10(0) == 1.0;
  }

  /** Normalising a literal keeps it a literal, keeps the number it denotes, and
      happens once: the result is never a whole float again. */
  lemma {:induction false} NormLitKeepsValue(lit: string)
    requires IsNumber(lit)
    ensures IsNumber(NormLit(lit))
    ensures Value(NormLit(lit)) == Value(lit)
    ensures !WholeFloat(NormLit(lit))
    ensures NormLit(lit) != lit <==> WholeFloat(lit)
  {
    if WholeFloat(lit) {
      var g := SignLen(lit);
      var t := lit[g..];
      WholeFloatShape(lit);
      WholeFloatParts(lit);
      WholeFloatValue(lit);
      var s := NormLit(lit);
      assert s[g..] == IntDigits(t);
      IntegerIsNumber(s);
    }
  }

  // --- The number the reader cuts off is itself a literal ---

  lemma IntCut(s: string, n: nat)
    requires 0 < IntLen(s) <= n <= |s|
    ensures IntLen(s[..n]) == IntLen(s)
  {
  }

  lemma FracCut(s: string, n: nat)
    requires 0 <= FracLen(s) <= n <= |s|
    requires FracLen(s) > 0 || n == 0 || s[0] != '.'
    ensures FracLen(s[..n]) == FracLen(s)
  {
  }

  lemma ExpCut(s: string)
    requires 0 <= ExpLen(s)
    ensures ExpLen(s[..ExpLen(s)]) == ExpLen(s)
  {
  }

  lemma TailCut(s: string)
    requires 0 <= TailLen(s)
    ensures TailLen(s[..TailLen(s)]) == TailLen(s)
  {
    var f, n := FracLen(s), TailLen(s);
    FracCut(s, n);
    assert s[..n][f..] == s[f..][..n - f];
    ExpCut(s[f..]);
  }

  lemma PartsMakeNumber(lit: string, g: nat, i: nat, n: nat)
    requires SignLen(lit) == g && IntLen(lit[g..]) == i > 0 && TailLen(lit[g..][i..]) == n
    requires g + i + n == |lit|
    ensures IsNumber(lit)
  {
  }

  lemma NumberPrefix(s: string)
    requires NumberLen(s) > 0
    ensures IsNumber(s[..NumberLen(s)])
  {
    var g, t := SignLen(s), s[SignLen(s)..];
    var i := IntLen(t);
    var n := TailLen(t[i..]);
    IntCut(t, i + n);
    TailCut(t[i..]);
    var lit := s[..g + i + n];
    SliceOfSlice(s, g, i + n);
    SliceOfSlice(t, i, n);
    assert lit[0] == s[0];
    PartsMakeNumber(lit, g, i, n);
  }
}
