/** Sums over finite sets, as SQL's SUM takes them: in no particular order. */
module Sums {

  ghost function Sum<K(!new)>(keys: set<K>, f: K -> int): int {
    if keys == {} then 0
    else
      var k :| k in keys;
      f(k) + Sum(keys - {k}, f)
  }

  lemma {:induction false} SumOut<K(!new)>(keys: set<K>, f: K -> int, x: K)
    requires x in keys
    ensures Sum(keys, f) == f(x) + Sum(keys - {x}, f)
    decreases |keys|
  {
    var k :| k in keys && Sum(keys, f) == f(k) + Sum(keys - {k}, f);
    if k != x {
      SumOut(keys - {k}, f, x);
      SumOut(keys - {x}, f, k);
      assert keys - {k} - {x} == keys - {x} - {k};
    }
  }

  lemma {:induction false} SumSame<K(!new)>(keys: set<K>, f: K -> int, g: K -> int)
    requires forall k | k in keys :: f(k) == g(k)
    ensures Sum(keys, f) == Sum(keys, g)
    decreases |keys|
  {
    if keys != {} {
      var k :| k in keys;
      SumOut(keys, f, k);
      SumOut(keys, g, k);
      SumSame(keys - {k}, f, g);
    }
  }

  lemma {:induction false} SumBound<K(!new)>(keys: set<K>, f: K -> int, bound: int)
    requires forall k | k in keys :: f(k) <= bound
    ensures Sum(keys, f) <= bound * |keys|
    decreases |keys|
  {
    if keys != {} {
      var k :| k in keys;
      SumOut(keys, f, k);
      SumBound(keys - {k}, f, bound);
      var n := |keys - {k}|;
      assert |keys| == n + 1;
      assert bound * (n + 1) == bound + bound * n;
    }
  }

  lemma {:induction false} SumAdd<K(!new)>(keys: set<K>, f: K -> int, g: K -> int, both: K -> int)
    requires forall k | k in keys :: both(k) == f(k) + g(k)
    ensures Sum(keys, both) == Sum(keys, f) + Sum(keys, g)
    decreases |keys|
  {
    if keys != {} {
      var k :| k in keys;
      SumOut(keys, f, k);
      SumOut(keys, g, k);
      SumOut(keys, both, k);
      SumAdd(keys - {k}, f, g, both);
    }
  }

  lemma {:induction false} SumZero<K(!new)>(keys: set<K>, f: K -> int)
    requires forall k | k in keys :: f(k) == 0
    ensures Sum(keys, f) == 0
    decreases |keys|
  {
    if keys != {} {
      var k :| k in keys;
      SumOut(keys, f, k);
      SumZero(keys - {k}, f);
    }
  }

  lemma {:induction false} SumNonNegative<K(!new)>(keys: set<K>, f: K -> int)
    requires forall k | k in keys :: f(k) >= 0
    ensures Sum(keys, f) >= 0
    decreases |keys|
  {
    if keys != {} {
      var k :| k in keys;
      SumOut(keys, f, k);
      SumNonNegative(keys - {k}, f);
    }
  }

  /** Only one key contributes. */
  lemma SumSingle<K(!new)>(keys: set<K>, f: K -> int, x: K)
    requires x in keys && forall k | k in keys && k != x :: f(k) == 0
    ensures Sum(keys, f) == f(x)
  {
    SumOut(keys, f, x);
    SumZero(keys - {x}, f);
  }

  /** The part of a sum that falls to one group. */
  ghost function Share<K(!new), G(!new)>(keys: set<K>, f: K -> int, group: K -> G, g: G): int {
    Sum(keys, k => if group(k) == g then f(k) else 0)
  }

  lemma ShareIs<K(!new), G(!new)>(keys: set<K>, f: K -> int, group: K -> G, g: G, own: K -> int)
    requires forall k | k in keys :: own(k) == if group(k) == g then f(k) else 0
    ensures Share(keys, f, group, g) == Sum(keys, own)
  {
  }

  /** Summing by group and then over groups sums everything, when each key is in
      one of the groups. */
  lemma {:induction false} SumByGroup<K(!new), G(!new)>(keys: set<K>, groups: set<G>, f: K -> int, group: K -> G,
                                                        share: G -> int)
    requires forall k | k in keys && f(k) != 0 :: group(k) in groups
    requires forall g | g in groups :: share(g) == Share(keys, f, group, g)
    ensures Sum(groups, share) == Sum(keys, f)
    decreases |keys|
  {
    if keys == {} {
      SumZero(groups, share);
    } else {
      var x :| x in keys;
      var rest := (g: G) => Share(keys - {x}, f, group, g);
      var own := (g: G) => if group(x) == g then f(x) else 0;
      forall g | g in groups ensures share(g) == own(g) + rest(g) {
        SumOut(keys, k => if group(k) == g then f(k) else 0, x);
      }
      SumAdd(groups, own, rest, share);
      SumByGroup(keys - {x}, groups, f, group, rest);
      SumOut(keys, f, x);
      if f(x) == 0 { SumZero(groups, own); } else { SumSingle(groups, own, group(x)); }
    }
  }
}
