/**
 Partitioning filtered rows by key: hash-map buckets, first-seen key order, conservation over the
 groups, and grouping by a 64-bit hash against grouping by the key itself.
*/
module Grouping {
  import opened Basics

  /** The rows whose key is `k`, in the order they were filtered. */
  function RowsWith<K(==)>(indices: seq<nat>, keys: seq<K>, k: K): (r: seq<nat>)
    requires |keys| == |indices|
    ensures |r| <= |indices|
  {
    if indices == [] then []
    else
      var n := |indices| - 1;
      RowsWith(indices[..n], keys[..n], k) + (if keys[n] == k then [indices[n]] else [])
  }

  /** The distinct keys in first-seen order. */
  function Distinct<K(==)>(keys: seq<K>): seq<K> {
    if keys == [] then []
    else
      var n := |keys| - 1;
      Distinct(keys[..n]) + (if keys[n] in keys[..n] then [] else [keys[n]])
  }

  lemma {:induction false} RowsWithMember<K>(indices: seq<nat>, keys: seq<K>, k: K, i: nat)
    requires |keys| == |indices|
    ensures i in RowsWith(indices, keys, k) <==> exists p :: 0 <= p < |keys| && keys[p] == k && indices[p] == i
  {
    if indices != [] {
      var n := |indices| - 1;
      RowsWithMember(indices[..n], keys[..n], k, i);
      if p :| 0 <= p < |keys| && keys[p] == k && indices[p] == i {
        if p < n { assert keys[..n][p] == k && indices[..n][p] == i; }
      }
    }
  }

  lemma {:induction false} DistinctMembers<K>(keys: seq<K>, k: K)
    ensures k in Distinct(keys) <==> k in keys
  {
    if keys != [] {
      var n := |keys| - 1;
      DistinctMembers(keys[..n], k);
      assert keys == keys[..n] + [keys[n]];
    }
  }

  /** `x` occurs in the list before `y` first does. */
  predicate SeenBefore<K(==)>(keys: seq<K>, x: K, y: K) {
    var a, b := Position(keys, x), Position(keys, y);
    a.Some? && b.Some? && a.value < b.value
  }

  /** One entry per present key, in the order the keys were first seen. */
  lemma {:induction false} DistinctIsFirstSeen<K>(keys: seq<K>)
    ensures forall k :: k in Distinct(keys) <==> k in keys
    ensures forall a, b :: 0 <= a < b < |Distinct(keys)| ==> SeenBefore(keys, Distinct(keys)[a], Distinct(keys)[b])
  {
    forall k ensures k in Distinct(keys) <==> k in keys { DistinctMembers(keys, k); }
    if keys != [] {
      var n := |keys| - 1;
      var before, d := Distinct(keys[..n]), Distinct(keys);
      DistinctIsFirstSeen(keys[..n]);
      forall a, b | 0 <= a < b < |d| ensures SeenBefore(keys, d[a], d[b]) {
        if b < |before| {
          assert d[a] == before[a] && d[b] == before[b];
          SeenBeforePrefix(keys[..n], keys[n], d[a], d[b]);
        } else {
          assert d[a] == before[a] && d[a] in before;
          DistinctMembers(keys[..n], d[a]);
          NewKeyLast(keys[..n], keys[n], d[a]);
        }
        assert keys == keys[..n] + [keys[n]];
      }
    }
  }

  lemma SeenBeforePrefix<K>(keys: seq<K>, k: K, x: K, y: K)
    requires SeenBefore(keys, x, y)
    ensures SeenBefore(keys + [k], x, y)
  {
    PositionPrefix(keys, [k], x);
    PositionPrefix(keys, [k], y);
  }

  lemma NewKeyLast<K>(keys: seq<K>, k: K, x: K)
    requires k !in keys && x in keys
    ensures SeenBefore(keys + [k], x, k)
  {
    PositionPrefix(keys, [k], x);
    assert (keys + [k])[|keys|] == k;
    assert forall p :: 0 <= p < |keys| ==> (keys + [k])[p] == keys[p];
  }

  lemma {:induction false} PositionPrefix<K>(s: seq<K>, t: seq<K>, x: K)
    requires x in s
    ensures Position(s + t, x) == Position(s, x)
  {
    if s[0] != x {
      assert (s + t)[1..] == s[1..] + t;
      PositionPrefix(s[1..], t, x);
    }
  }

  predicate NoDuplicates<K(==)>(s: seq<K>) {
    forall a, b :: 0 <= a < b < |s| ==> s[a] != s[b]
  }

  lemma DistinctEnumerates<K>(keys: seq<K>)
    ensures NoDuplicates(Distinct(keys)) && forall k :: k in Distinct(keys) <==> k in keys
  {
    DistinctIsFirstSeen(keys);
  }

  // ----- the hash maps -----

  /** The buckets: `entry(key).or_default().push(row)` for every filtered row. */
  method BuildBuckets<K(==)>(indices: seq<nat>, keys: seq<K>) returns (buckets: map<K, seq<nat>>)
    requires |keys| == |indices|
    ensures forall k :: k in buckets <==> k in keys
    ensures forall k :: k in buckets ==> buckets[k] == RowsWith(indices, keys, k)
  {
    buckets := map[];
    for p := 0 to |indices|
      invariant forall k :: k in buckets <==> k in keys[..p]
      invariant forall k :: k !in buckets ==> RowsWith(indices[..p], keys[..p], k) == []
      invariant forall k :: k in buckets ==> buckets[k] == RowsWith(indices[..p], keys[..p], k)
    {
      assert keys[..p + 1] == keys[..p] + [keys[p]];
      assert indices[..p + 1][..p] == indices[..p] && keys[..p + 1][..p] == keys[..p];
      var bucket := if keys[p] in buckets then buckets[keys[p]] else [];
      buckets := buckets[keys[p] := bucket + [indices[p]]];
    }
    assert indices[..|indices|] == indices && keys[..|keys|] == keys;
  }

  /** First-seen order, with a set of the keys already emitted. */
  method KeysInOrder<K(==)>(keys: seq<K>) returns (order: seq<K>)
    ensures order == Distinct(keys)
  {
    order := [];
    var seen := {};
    for p := 0 to |keys|
      invariant order == Distinct(keys[..p])
      invariant forall k :: k in seen <==> k in keys[..p]
    {
      assert keys[..p + 1][..p] == keys[..p] && keys[..p + 1] == keys[..p] + [keys[p]];
      if keys[p] !in seen {
        seen := seen + {keys[p]};
        order := order + [keys[p]];
      }
    }
    assert keys[..|keys|] == keys;
  }

  // ----- conservation -----

  /** A quantity summed over rows. */
  function Total(rows: seq<nat>, weight: nat -> nat): nat {
    if rows == [] then 0 else Total(rows[..|rows| - 1], weight) + weight(rows[|rows| - 1])
  }

  /** The same quantity summed over groups. */
  function GroupTotal<K(==)>(order: seq<K>, indices: seq<nat>, keys: seq<K>, weight: nat -> nat): nat
    requires |keys| == |indices|
  {
    if order == [] then 0
    else
      var n := |order| - 1;
      GroupTotal(order[..n], indices, keys, weight) + Total(RowsWith(indices, keys, order[n]), weight)
  }

  lemma {:induction false} GroupTotalStep<K>(order: seq<K>, indices: seq<nat>, keys: seq<K>, weight: nat -> nat)
    requires |keys| == |indices| > 0 && NoDuplicates(order)
    ensures
      var n := |indices| - 1;
      GroupTotal(order, indices, keys, weight)
        == GroupTotal(order, indices[..n], keys[..n], weight) + (if keys[n] in order then weight(indices[n]) else 0)
    decreases |order|
  {
    if order != [] {
      var n, m := |indices| - 1, |order| - 1;
      GroupTotalStep(order[..m], indices, keys, weight);
      assert order == order[..m] + [order[m]];
      var before, after := RowsWith(indices[..n], keys[..n], order[m]), RowsWith(indices, keys, order[m]);
      if keys[n] == order[m] {
        assert after[..|after| - 1] == before;
        assert Total(after, weight) == Total(before, weight) + weight(indices[n]);
        assert keys[n] !in order[..m];
      } else {
        assert after == before;
        assert keys[n] in order <==> keys[n] in order[..m];
      }
    }
  }

  lemma {:induction false} GroupTotalEmpty<K>(order: seq<K>, weight: nat -> nat)
    ensures GroupTotal(order, [], [], weight) == 0
  {
    if order != [] { GroupTotalEmpty(order[..|order| - 1], weight); }
  }

  /** Whatever is summed, in whatever order the groups come out, nothing is lost or counted twice. */
  lemma {:induction false} GroupsConserve<K>(order: seq<K>, indices: seq<nat>, keys: seq<K>, weight: nat -> nat)
    requires |keys| == |indices| && NoDuplicates(order) && forall k :: k in keys ==> k in order
    ensures GroupTotal(order, indices, keys, weight) == Total(indices, weight)
    decreases |indices|
  {
    if indices == [] {
      GroupTotalEmpty(order, weight);
    } else {
      var n := |indices| - 1;
      GroupTotalStep(order, indices, keys, weight);
      GroupsConserve(order, indices[..n], keys[..n], weight);
    }
  }

  /** The quantity of each group, in group order. */
  function GroupWeights<K(==)>(order: seq<K>, indices: seq<nat>, keys: seq<K>, weight: nat -> nat): (w: seq<nat>)
    requires |keys| == |indices|
    ensures |w| == |order|
    ensures forall j :: 0 <= j < |order| ==> w[j] == Total(RowsWith(indices, keys, order[j]), weight)
  {
    seq(|order|, j requires 0 <= j < |order| => Total(RowsWith(indices, keys, order[j]), weight))
  }

  function AddUp(s: seq<nat>): nat {
    if s == [] then 0 else AddUp(s[..|s| - 1]) + s[|s| - 1]
  }

  lemma {:induction false} WeightsAddUp<K>(order: seq<K>, indices: seq<nat>, keys: seq<K>, weight: nat -> nat)
    requires |keys| == |indices|
    ensures AddUp(GroupWeights(order, indices, keys, weight)) == GroupTotal(order, indices, keys, weight)
    decreases |order|
  {
    if order != [] {
      var n := |order| - 1;
      var w := GroupWeights(order, indices, keys, weight);
      WeightsAddUp(order[..n], indices, keys, weight);
      assert w[..n] == GroupWeights(order[..n], indices, keys, weight);
    }
  }

  lemma {:induction false} ElementBelowSum(s: seq<nat>, j: nat)
    requires j < |s|
    ensures s[j] <= AddUp(s)
  {
    if j < |s| - 1 { ElementBelowSum(s[..|s| - 1], j); }
  }

  // ----- grouping by a hash -----

  const HASH_FACTOR: int := 0x517cc1b727220a95

  /** The wrapping multiply-add hash of a composite key. */
  function HashKey(key: seq<u64>): u64 {
    if key == [] then 0 else (HashKey(key[..|key| - 1]) * HASH_FACTOR + key[|key| - 1]) % TWO_64
  }

  method HashRow(key: seq<u64>) returns (h: u64)
    ensures h == HashKey(key)
  {
    h := 0;
    for c := 0 to |key|
      invariant h == HashKey(key[..c])
    {
      assert key[..c + 1][..c] == key[..c];
      h := (h * HASH_FACTOR + key[c]) % TWO_64;
    }
    assert key[..|key|] == key;
  }

  function Hashes(keys: seq<seq<u64>>): (h: seq<u64>)
    ensures |h| == |keys| && forall p :: 0 <= p < |keys| ==> h[p] == HashKey(keys[p])
  {
    seq(|keys|, p requires 0 <= p < |keys| => HashKey(keys[p]))
  }

  /** Two rows fall into one group exactly when their keys are equal. */
  predicate NoCollision(keys: seq<seq<u64>>) {
    forall p, q :: 0 <= p < |keys| && 0 <= q < |keys| && HashKey(keys[p]) == HashKey(keys[q]) ==> keys[p] == keys[q]
  }

  /** The groups a key list induces, as a set of row lists. */
  function Groups<K(==)>(indices: seq<nat>, keys: seq<K>): set<seq<nat>>
    requires |keys| == |indices|
  {
    set p | 0 <= p < |keys| :: RowsWith(indices, keys, keys[p])
  }

  lemma {:induction false} SameRowsWith<K, L>(indices: seq<nat>, keys: seq<K>, hashes: seq<L>, k: K, h: L)
    requires |keys| == |hashes| == |indices|
    requires forall p :: 0 <= p < |keys| ==> (keys[p] == k <==> hashes[p] == h)
    ensures RowsWith(indices, keys, k) == RowsWith(indices, hashes, h)
    decreases |indices|
  {
    if indices != [] {
      var n := |indices| - 1;
      SameRowsWith(indices[..n], keys[..n], hashes[..n], k, h);
    }
  }

  lemma NoCollisionSameGroups(indices: seq<nat>, keys: seq<seq<u64>>)
    requires |keys| == |indices| && NoCollision(keys)
    ensures Groups(indices, Hashes(keys)) == Groups(indices, keys)
  {
    var h := Hashes(keys);
    forall p | 0 <= p < |keys| ensures RowsWith(indices, keys, keys[p]) == RowsWith(indices, h, h[p]) {
      SameRowsWith(indices, keys, h, keys[p], h[p]);
    }
  }

  /** A row's position can be read back from the row, so a group with that row has its key. */
  lemma MemberHasKey<K>(indices: seq<nat>, keys: seq<K>, k: K, p: nat)
    requires |keys| == |indices| && NoDuplicates(indices) && p < |keys|
    ensures indices[p] in RowsWith(indices, keys, k) <==> keys[p] == k
  {
    RowsWithMember(indices, keys, k, indices[p]);
  }

  lemma CollisionMerges(indices: seq<nat>, keys: seq<seq<u64>>, p: nat, q: nat)
    requires |keys| == |indices| && NoDuplicates(indices)
    requires p < |keys| && q < |keys| && HashKey(keys[p]) == HashKey(keys[q]) && keys[p] != keys[q]
    ensures RowsWith(indices, Hashes(keys), HashKey(keys[p])) !in Groups(indices, keys)
  {
    var h := Hashes(keys);
    var merged := RowsWith(indices, h, h[p]);
    MemberHasKey(indices, h, h[p], p);
    MemberHasKey(indices, h, h[p], q);
    forall g | 0 <= g < |keys| ensures RowsWith(indices, keys, keys[g]) != merged {
      MemberHasKey(indices, keys, keys[g], p);
      MemberHasKey(indices, keys, keys[g], q);
    }
  }

  /**
   Hash grouping forms exactly the groups of the composite keys iff no two different keys that are
   present have the same hash. Rows are distinct, as filtered row indices are.
  */
  lemma HashGroupingExactIff(indices: seq<nat>, keys: seq<seq<u64>>)
    requires |keys| == |indices| && NoDuplicates(indices)
    ensures Groups(indices, Hashes(keys)) == Groups(indices, keys) <==> NoCollision(keys)
  {
    if NoCollision(keys) {
      NoCollisionSameGroups(indices, keys);
    } else {
      var p, q :| 0 <= p < |keys| && 0 <= q < |keys| && HashKey(keys[p]) == HashKey(keys[q]) && keys[p] != keys[q];
      CollisionMerges(indices, keys, p, q);
      assert RowsWith(indices, Hashes(keys), Hashes(keys)[p]) in Groups(indices, Hashes(keys));
    }
  }

  /** Two rows with different two-column keys that the hash puts into one group. */
  lemma CollidingKeys()
    ensures HashKey([1, 0]) == HashKey([0, HASH_FACTOR])
    ensures !NoCollision([[1, 0], [0, HASH_FACTOR]])
  {
    var a: seq<u64> := [1, 0];
    var b: seq<u64> := [0, HASH_FACTOR];
    assert a[..1] == [1] && b[..1] == [0] && a[..1][..0] == [] && b[..1][..0] == [];
    assert HashKey(a[..1]) == 1 && HashKey(b[..1]) == 0;
    var keys := [a, b];
    assert keys[0] != keys[1] by { assert a[0] != b[0]; }
  }

  /** Rows that agree on every grouping column but the last never collide. */
  lemma SharedPrefixNoCollision(keys: seq<seq<u64>>, prefix: seq<u64>)
    requires forall p :: 0 <= p < |keys| ==> |keys[p]| == |prefix| + 1 && keys[p][..|prefix|] == prefix
    ensures NoCollision(keys)
  {
    forall p, q | 0 <= p < |keys| && 0 <= q < |keys| && HashKey(keys[p]) == HashKey(keys[q]) ensures keys[p] == keys[q] {
      var n, base := |prefix|, HashKey(prefix) * HASH_FACTOR;
      CongruentCells(base, keys[p][n], keys[q][n]);
      assert keys[p] == prefix + [keys[p][n]] && keys[q] == prefix + [keys[q][n]];
    }
  }

  lemma CongruentCells(base: int, x: u64, y: u64)
    requires (base + x) % TWO_64 == (base + y) % TWO_64
    ensures x == y
  {
    var a, b := (base + x) / TWO_64, (base + y) / TWO_64;
    assert x - y == (a - b) * TWO_64;
  }
}
