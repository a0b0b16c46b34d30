/**
 Queries of the form WHERE due ORDER BY key LIMIT n: the shape of every work
 queue in the repositories.
 */
module Queues {
  import opened Options

  predicate Distinct<K(==)>(ids: seq<K>) {
    forall i, j | 0 <= i < j < |ids| :: ids[i] != ids[j]
  }

  /** What such a query may return. Rows with equal keys come in any order. */
  ghost predicate IsBatch<K, R>(rows: map<K, R>, due: R -> bool, key: R -> Option<int>, limit: nat, ids: seq<K>) {
    && Distinct(ids) && |ids| <= limit
    && (forall id | id in ids :: id in rows && due(rows[id]))
    && (forall i, j | 0 <= i < j < |ids| :: NoLater(key(rows[ids[i]]), key(rows[ids[j]])))
    && (forall id | id in rows && due(rows[id]) && id !in ids ::
          |ids| == limit && forall i | 0 <= i < |ids| :: NoLater(key(rows[ids[i]]), key(rows[id])))
  }

  predicate First<K(==), R>(rows: map<K, R>, key: R -> Option<int>, left: set<K>, id: K)
    requires id in left && left <= rows.Keys
  {
    forall other | other in left :: NoLater(key(rows[id]), key(rows[other]))
  }

  lemma {:induction false} FirstExists<K, R>(rows: map<K, R>, key: R -> Option<int>, left: set<K>) returns (id: K)
    requires left != {} && left <= rows.Keys
    ensures id in left && First(rows, key, left, id)
    decreases |left|
  {
    id :| id in left;
    var rest := left - {id};
    if rest != {} {
      var other := FirstExists(rows, key, rest);
      assert First(rows, key, rest, other);
      var best := if NoLater(key(rows[other]), key(rows[id])) then other else id;
      forall x | x in left ensures NoLater(key(rows[best]), key(rows[x])) {
        assert x == id || NoLater(key(rows[other]), key(rows[x]));
      }
      id := best;
    } else {
      assert left == {id};
    }
  }

  method Select<K(==), R>(rows: map<K, R>, due: R -> bool, key: R -> Option<int>, limit: nat) returns (ids: seq<K>)
    ensures IsBatch(rows, due, key, limit, ids)
  {
    var left := set id | id in rows && due(rows[id]);
    ids := [];
    while left != {} && |ids| < limit
      invariant left <= rows.Keys
      invariant Distinct(ids) && |ids| <= limit
      invariant forall id :: id in rows && due(rows[id]) <==> id in ids || id in left
      invariant forall id | id in ids :: id !in left
      invariant forall i, j | 0 <= i < j < |ids| :: NoLater(key(rows[ids[i]]), key(rows[ids[j]]))
      invariant forall i, id | 0 <= i < |ids| && id in left :: NoLater(key(rows[ids[i]]), key(rows[id]))
      decreases left
    {
      ghost var _ := FirstExists(rows, key, left);
      var id :| id in left && First(rows, key, left, id);
      assert First(rows, key, left, id);
      assert forall other | other in left :: NoLater(key(rows[id]), key(rows[other]));
      left := left - {id};
      ids := ids + [id];
    }
  }

  // --- Sizes ---

  lemma {:induction false} SetOfDistinct<K>(ids: seq<K>)
    requires Distinct(ids)
    ensures |set id | id in ids| == |ids|
  {
    if ids != [] {
      SetOfDistinct(ids[1..]);
      assert (set id | id in ids) == {ids[0]} + (set id | id in ids[1..]);
    }
  }

  lemma SubsetSize<K>(a: set<K>, b: set<K>)
    requires a <= b
    ensures |a| <= |b|
  {
    assert b == a + (b - a);
  }

  /** A batch from a table no larger than the limit holds every due row. */
  lemma BatchComplete<K, R>(rows: map<K, R>, due: R -> bool, key: R -> Option<int>, limit: nat, ids: seq<K>)
    requires IsBatch(rows, due, key, limit, ids) && |rows.Keys| <= limit
    ensures forall id | id in rows && due(rows[id]) :: id in ids
  {
    var s := set id | id in ids;
    SetOfDistinct(ids);
    forall id | id in rows && due(rows[id]) ensures id in ids {
      if id !in ids { SubsetSize(s + {id}, rows.Keys); }
    }
  }
}
