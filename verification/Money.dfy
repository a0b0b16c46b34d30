/** Rounding stroops to whole cents in 64-bit arithmetic (pkg/utils/money.go). */
module Money {
  const CENT_STROOPS := 100000
  const MAX_INT64 := 0x7fff_ffff_ffff_ffff

  predicate IsInt64(x: int) { -MAX_INT64 - 1 <= x <= MAX_INT64 }

  /** Two's complement wrap-around. */
  function Wrap(x: int): int { (x + MAX_INT64 + 1) % (2 * MAX_INT64 + 2) - MAX_INT64 - 1 }

  /** Division truncates toward zero. */
  function Quotient(x: int, y: int): int
    requires y > 0
  {
    if x >= 0 then x / y else -(-x / y)
  }

  function RoundToCentStroops(stroops: int): int {
    if stroops <= 0 then stroops
    else
      var rounded := Wrap(Quotient(Wrap(stroops + CENT_STROOPS / 2), CENT_STROOPS) * CENT_STROOPS);
      if rounded == 0 then CENT_STROOPS else rounded
  }

  /** A positive whole number of cents, as near as any and the larger of two as near. */
  predicate IsNearestCent(stroops: int, r: int) {
    r > 0 && r % CENT_STROOPS == 0 && (r - stroops <= CENT_STROOPS / 2 || r == CENT_STROOPS)
      && stroops - r < CENT_STROOPS / 2
  }

  /** Half-up rounding of a positive amount is right exactly as long as adding half a
      cent does not overflow; above that the result is negative. */
  lemma NearestExactly(stroops: int)
    requires IsInt64(stroops)
    ensures stroops <= 0 ==> RoundToCentStroops(stroops) == stroops
    ensures stroops > 0 ==>
      (IsNearestCent(stroops, RoundToCentStroops(stroops)) <==> stroops <= MAX_INT64 - CENT_STROOPS / 2)
    ensures stroops > 0 ==> (RoundToCentStroops(stroops) < 0 <==> stroops > MAX_INT64 - CENT_STROOPS / 2)
  {
  }

  lemma NearestIsUnique(stroops: int, a: int, b: int)
    requires stroops > 0 && IsNearestCent(stroops, a) && IsNearestCent(stroops, b)
    ensures a == b
  {
  }

  /** The largest amount that half a cent can be added to. */
  const EDGE := MAX_INT64 - CENT_STROOPS / 2

  /** What every amount past the edge rounds to. */
  const OVERFLOWED := -9223372036854700000

  lemma PastEdge(stroops: int)
    requires IsInt64(stroops) && stroops > EDGE
    ensures RoundToCentStroops(stroops) == OVERFLOWED
  {
    var low := Wrap(stroops + CENT_STROOPS / 2);
    assert -MAX_INT64 - 1 <= low < -MAX_INT64 - 1 + CENT_STROOPS / 2;
    assert -low / CENT_STROOPS == 92233720368547;
  }

  lemma BeforeEdge(stroops: int)
    requires IsInt64(stroops)
    ensures stroops <= 0 ==> RoundToCentStroops(stroops) == stroops
    ensures 0 < stroops <= EDGE ==> IsNearestCent(stroops, RoundToCentStroops(stroops))
  {
    NearestExactly(stroops);
  }

  lemma CentsKeepOrder(a: int, b: int, r: int, s: int)
    requires 0 < a <= b && IsNearestCent(a, r) && IsNearestCent(b, s)
    ensures r <= s
  {
  }

  /** Rounding keeps the order of two amounts exactly unless only the larger is past the
      edge and the smaller is above what it rounds to. */
  lemma RoundingKeepsOrderExactly(a: int, b: int)
    requires IsInt64(a) && IsInt64(b) && a <= b
    ensures RoundToCentStroops(a) <= RoundToCentStroops(b) <==> b <= EDGE || a > EDGE || a <= OVERFLOWED
  {
    BeforeEdge(a);
    BeforeEdge(b);
    if a > EDGE { PastEdge(a); }
    if b > EDGE { PastEdge(b); }
    if 0 < a && b <= EDGE { CentsKeepOrder(a, b, RoundToCentStroops(a), RoundToCentStroops(b)); }
  }

  /** Rounding twice is rounding once, for every 64-bit amount. */
  lemma {:induction false} RoundingTwice(stroops: int)
    requires IsInt64(stroops)
    ensures RoundToCentStroops(RoundToCentStroops(stroops)) == RoundToCentStroops(stroops)
  {
    if stroops > 0 { NearestExactly(stroops); }
    var r := RoundToCentStroops(stroops);
    if r > 0 {
      var cents := r / CENT_STROOPS;
      assert r == cents * CENT_STROOPS && r <= MAX_INT64;
      assert r <= MAX_INT64 - CENT_STROOPS / 2;
      NearestExactly(r);
      NearestIsUnique(r, r, RoundToCentStroops(r));
    }
  }
}
