// Where the keys of the hash map go: the buckets as the finite maps they stand for.
module Placement {
  // The bits of a hash value mixed before the bucket is chosen.
  function Mix(h: bv64): bv64 {
    var g := h ^ (h >> 20) ^ (h >> 12);
    g ^ (g >> 7) ^ (g >> 4)
  }

  function Slot<K>(hash: K -> bv64, key: K, capacity: nat): (h: nat)
    requires capacity > 0
    ensures h < capacity
  {
    Mix(hash(key)) as nat % capacity
  }

  // Every key is in the bucket of its hash and in no other.
  ghost predicate Placed<K, V>(hash: K -> bv64, bs: seq<map<K, V>>) {
    forall i :: 0 <= i < |bs| ==> forall k :: k in bs[i] ==> Slot(hash, k, |bs|) == i
  }

  // The buckets hold all of `m`, and nothing else.
  ghost predicate HoldsAll<K(!new), V>(hash: K -> bv64, bs: seq<map<K, V>>, m: map<K, V>)
    requires |bs| > 0
  {
    forall k :: k in m ==> k in bs[Slot(hash, k, |bs|)] && bs[Slot(hash, k, |bs|)][k] == m[k]
  }

  ghost predicate HoldsOnly<K, V>(bs: seq<map<K, V>>, m: map<K, V>) {
    forall i :: 0 <= i < |bs| ==> forall k :: k in bs[i] ==> k in m
  }

  ghost predicate Holds<K(!new), V>(hash: K -> bv64, bs: seq<map<K, V>>, m: map<K, V>)
    requires |bs| > 0
  {
    Placed(hash, bs) && HoldsAll(hash, bs, m) && HoldsOnly(bs, m)
  }

  lemma NothingHeld<K(!new), V>(hash: K -> bv64, bs: seq<map<K, V>>)
    requires |bs| > 0 && forall i :: 0 <= i < |bs| ==> bs[i] == map[]
    ensures Holds(hash, bs, map[])
  {
    hide Slot;
  }

  lemma Bucketed<K(!new), V>(hash: K -> bv64, bs: seq<map<K, V>>, m: map<K, V>, key: K)
    requires |bs| > 0 && Holds(hash, bs, m)
    ensures var b := bs[Slot(hash, key, |bs|)]; (key in b <==> key in m) && (key in m ==> b[key] == m[key])
  {
    hide Slot;
  }

  // ----- adding and removing a key -----

  lemma AddTo<K(!new), V>(hash: K -> bv64, bs: seq<map<K, V>>, m: map<K, V>, key: K, value: V)
    requires |bs| > 0 && Holds(hash, bs, m) && key !in m
    ensures var h := Slot(hash, key, |bs|); Holds(hash, bs[h := bs[h][key := value]], m[key := value])
    ensures |m[key := value]| == |m| + 1
  {
    hide Slot;
    var h := Slot(hash, key, |bs|);
    var t, n := bs[h := bs[h][key := value]], m[key := value];
    forall k | k in n ensures k in t[Slot(hash, k, |t|)] && t[Slot(hash, k, |t|)][k] == n[k] {
      assert k == key || k in bs[Slot(hash, k, |bs|)];
    }
    forall i, k | 0 <= i < |t| && k in t[i] ensures Slot(hash, k, |t|) == i && k in n {
      assert k == key || k in bs[i];
    }
  }

  lemma RemoveFrom<K(!new), V>(hash: K -> bv64, bs: seq<map<K, V>>, m: map<K, V>, key: K)
    requires |bs| > 0 && Holds(hash, bs, m)
    ensures var h := Slot(hash, key, |bs|); Holds(hash, bs[h := bs[h] - {key}], m - {key})
    ensures |m - {key}| == |m| - if key in m then 1 else 0
  {
    hide Slot, Placed, HoldsAll, HoldsOnly;
    OneFewer(m, key);
    RemovePlaced(hash, bs, key);
    RemoveAll(hash, bs, m, key);
    RemoveOnly(hash, bs, m, key);
  }

  lemma RemoveAll<K(!new), V>(hash: K -> bv64, bs: seq<map<K, V>>, m: map<K, V>, key: K)
    requires |bs| > 0 && HoldsAll(hash, bs, m)
    ensures var h := Slot(hash, key, |bs|); HoldsAll(hash, bs[h := bs[h] - {key}], m - {key})
  {
    hide Slot;
    var h := Slot(hash, key, |bs|);
    var t, n := bs[h := bs[h] - {key}], m - {key};
    forall k | k in n ensures k in t[Slot(hash, k, |t|)] && t[Slot(hash, k, |t|)][k] == n[k] {
      assert k in bs[Slot(hash, k, |bs|)];
    }
  }

  lemma RemovePlaced<K, V>(hash: K -> bv64, bs: seq<map<K, V>>, key: K)
    requires |bs| > 0 && Placed(hash, bs)
    ensures var h := Slot(hash, key, |bs|); Placed(hash, bs[h := bs[h] - {key}])
  {
    hide Slot;
    var h := Slot(hash, key, |bs|);
    var t := bs[h := bs[h] - {key}];
    forall i | 0 <= i < |t| ensures forall k :: k in t[i] ==> Slot(hash, k, |t|) == i {
      assert forall k :: k in t[i] ==> k in bs[i];
    }
  }

  lemma RemoveOnly<K, V>(hash: K -> bv64, bs: seq<map<K, V>>, m: map<K, V>, key: K)
    requires |bs| > 0 && Placed(hash, bs) && HoldsOnly(bs, m)
    ensures var h := Slot(hash, key, |bs|); HoldsOnly(bs[h := bs[h] - {key}], m - {key})
  {
    hide Slot;
    var h := Slot(hash, key, |bs|);
    var t := bs[h := bs[h] - {key}];
    forall i | 0 <= i < |t| ensures forall k :: k in t[i] ==> k in m - {key} {
      assert forall k :: k in t[i] ==> k in bs[i];
    }
  }

  lemma OneFewer<K, V>(m: map<K, V>, key: K)
    ensures |m - {key}| == |m| - if key in m then 1 else 0
  {
    var n := m - {key};
    assert m == if key in m then n[key := m[key]] else n;
  }

  // ----- moving to a larger table -----

  // Keys of the first i buckets, and those of the next one except `left`.
  ghost predicate Done<K, V>(hash: K -> bv64, from: seq<map<K, V>>, i: nat, left: set<K>, k: K)
    requires |from| > 0
  {
    Slot(hash, k, |from|) < i || (Slot(hash, k, |from|) == i && k !in left)
  }

  // The new buckets hold nothing but keys that were moved, with their values.
  ghost predicate MovedOnly<K, V>(hash: K -> bv64, from: seq<map<K, V>>, m: map<K, V>, bs: seq<map<K, V>>, i: nat, left: set<K>)
    requires |from| > 0
  {
    forall j :: 0 <= j < |bs| ==> forall k :: k in bs[j] ==> k in m && bs[j][k] == m[k] && Done(hash, from, i, left, k)
  }

  // And all of them.
  ghost predicate MovedAll<K(!new), V>(hash: K -> bv64, from: seq<map<K, V>>, m: map<K, V>, bs: seq<map<K, V>>, i: nat, left: set<K>)
    requires |from| > 0 && |bs| > 0
  {
    forall k :: k in m && Done(hash, from, i, left, k) ==> k in bs[Slot(hash, k, |bs|)]
  }

  ghost predicate Moved<K(!new), V>(hash: K -> bv64, from: seq<map<K, V>>, m: map<K, V>, bs: seq<map<K, V>>, i: nat, left: set<K>)
    requires |from| > 0 && |bs| > 0
  {
    Placed(hash, bs) && MovedOnly(hash, from, m, bs, i, left) && MovedAll(hash, from, m, bs, i, left)
  }

  ghost function KeysOf<K, V>(bs: seq<map<K, V>>, i: nat): set<K> {
    if i < |bs| then bs[i].Keys else {}
  }

  lemma NothingMoved<K(!new), V>(hash: K -> bv64, from: seq<map<K, V>>, m: map<K, V>, bs: seq<map<K, V>>)
    requires |from| > 0 && |bs| > 0 && Holds(hash, from, m) && forall i :: 0 <= i < |bs| ==> bs[i] == map[]
    ensures Moved(hash, from, m, bs, 0, KeysOf(from, 0))
  {
    hide Slot;
  }

  // A key that is still to be moved is new to the bucket it goes to.
  lemma FreshThere<K(!new), V>(hash: K -> bv64, from: seq<map<K, V>>, m: map<K, V>, bs: seq<map<K, V>>, i: nat, left: set<K>, k: K)
    requires |from| > 0 && |bs| > 0 && i < |from| && Holds(hash, from, m) && Moved(hash, from, m, bs, i, left)
    requires k in left && left <= from[i].Keys
    ensures forall j :: 0 <= j < |bs| ==> k !in bs[j]
  {
    hide Slot;
  }

  lemma MoveOne<K(!new), V>(hash: K -> bv64, from: seq<map<K, V>>, m: map<K, V>, bs: seq<map<K, V>>, i: nat, left: set<K>, k: K)
    requires |from| > 0 && |bs| > 0 && i < |from| && Holds(hash, from, m) && Moved(hash, from, m, bs, i, left)
    requires k in left && left <= from[i].Keys
    ensures var h := Slot(hash, k, |bs|);
      Moved(hash, from, m, bs[h := bs[h][k := from[i][k]]], i, left - {k})
  {
    hide Slot, Holds;
    OldValue(hash, from, m, i, k);
    MoveOnePlaced(hash, bs, k, from[i][k]);
    MoveOneOnly(hash, from, m, bs, i, left, k);
    MoveOneAll(hash, from, m, bs, i, left, k);
  }

  lemma OldValue<K(!new), V>(hash: K -> bv64, from: seq<map<K, V>>, m: map<K, V>, i: nat, k: K)
    requires |from| > 0 && i < |from| && Holds(hash, from, m) && k in from[i]
    ensures k in m && m[k] == from[i][k] && Slot(hash, k, |from|) == i
  {
    hide Slot;
  }

  lemma MoveOnePlaced<K, V>(hash: K -> bv64, bs: seq<map<K, V>>, k: K, v: V)
    requires |bs| > 0 && Placed(hash, bs)
    ensures var h := Slot(hash, k, |bs|); Placed(hash, bs[h := bs[h][k := v]])
  {
    hide Slot;
    var t := bs[Slot(hash, k, |bs|) := bs[Slot(hash, k, |bs|)][k := v]];
    forall j, l | 0 <= j < |t| && l in t[j] ensures Slot(hash, l, |t|) == j {
      assert l == k || l in bs[j];
    }
  }

  lemma MoveOneOnly<K, V>(hash: K -> bv64, from: seq<map<K, V>>, m: map<K, V>, bs: seq<map<K, V>>, i: nat, left: set<K>, k: K)
    requires |from| > 0 && |bs| > 0 && i < |from| && MovedOnly(hash, from, m, bs, i, left)
    requires k in from[i] && k in m && m[k] == from[i][k] && Slot(hash, k, |from|) == i
    ensures var h := Slot(hash, k, |bs|);
      MovedOnly(hash, from, m, bs[h := bs[h][k := from[i][k]]], i, left - {k})
  {
    hide Slot;
    var t := bs[Slot(hash, k, |bs|) := bs[Slot(hash, k, |bs|)][k := from[i][k]]];
    forall j, l | 0 <= j < |t| && l in t[j]
      ensures l in m && t[j][l] == m[l] && Done(hash, from, i, left - {k}, l)
    {
      assert l == k || l in bs[j];
    }
  }

  lemma MoveOneAll<K(!new), V>(hash: K -> bv64, from: seq<map<K, V>>, m: map<K, V>, bs: seq<map<K, V>>, i: nat, left: set<K>, k: K)
    requires |from| > 0 && |bs| > 0 && i < |from| && MovedAll(hash, from, m, bs, i, left) && k in from[i]
    ensures var h := Slot(hash, k, |bs|);
      MovedAll(hash, from, m, bs[h := bs[h][k := from[i][k]]], i, left - {k})
  {
    hide Slot;
    var t := bs[Slot(hash, k, |bs|) := bs[Slot(hash, k, |bs|)][k := from[i][k]]];
    forall l | l in m && Done(hash, from, i, left - {k}, l) ensures l in t[Slot(hash, l, |t|)] {
      assert l == k || Done(hash, from, i, left, l);
    }
  }

  lemma NextBucket<K(!new), V>(hash: K -> bv64, from: seq<map<K, V>>, m: map<K, V>, bs: seq<map<K, V>>, i: nat)
    requires |from| > 0 && |bs| > 0 && i < |from| && Holds(hash, from, m) && Moved(hash, from, m, bs, i, {})
    ensures Moved(hash, from, m, bs, i + 1, KeysOf(from, i + 1))
  {
    hide Slot, Placed, Holds, Done, KeysOf;
    forall k | k in m ensures Done(hash, from, i, {}, k) <==> Done(hash, from, i + 1, KeysOf(from, i + 1), k) {
      SameDone(hash, from, m, i, k);
    }
  }

  lemma SameDone<K(!new), V>(hash: K -> bv64, from: seq<map<K, V>>, m: map<K, V>, i: nat, k: K)
    requires |from| > 0 && i < |from| && Holds(hash, from, m) && k in m
    ensures Done(hash, from, i, {}, k) <==> Done(hash, from, i + 1, KeysOf(from, i + 1), k)
  {
    Bucketed(hash, from, m, k);
    hide Slot, Holds;
  }

  lemma AllMoved<K(!new), V>(hash: K -> bv64, from: seq<map<K, V>>, m: map<K, V>, bs: seq<map<K, V>>)
    requires |from| > 0 && |bs| > 0 && Moved(hash, from, m, bs, |from|, {})
    ensures Holds(hash, bs, m)
  {
    hide Slot;
    forall k | k in m ensures k in bs[Slot(hash, k, |bs|)] {
      assert Done(hash, from, |from|, {}, k);
    }
  }
}
