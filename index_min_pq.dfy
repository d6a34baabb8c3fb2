/**
 * The indexed minimum-priority queue the engine drives, kept to the part of its
 * behaviour the engine relies on: the queue is a finite map from an index in
 * 0..maxN-1 to its key. The binary heap and position table that make the real
 * queue logarithmic are not modelled; DelMin finds a minimum by a linear scan.
 */
module PriorityQueue {

  class IndexMinPQ {
    const maxN: nat
    var keys: map<int, nat>

    ghost predicate Valid()
      reads this
    {
      forall i :: i in keys ==> 0 <= i < maxN
    }

    constructor (maxN: nat)
      ensures Valid() && this.maxN == maxN && keys == map[]
    {
      this.maxN := maxN;
      keys := map[];
    }

    predicate IsEmpty()
      reads this
      ensures IsEmpty() <==> keys == map[]
    {
      |keys| == 0
    }

    predicate Contains(i: int)
      reads this
      requires 0 <= i < maxN
      ensures Contains(i) <==> i in keys.Keys
    {
      i in keys
    }

    /** Adds an index that is not yet present. */
    method Insert(i: int, key: nat)
      requires Valid() && 0 <= i < maxN && i !in keys
      modifies this
      ensures Valid() && keys == old(keys)[i := key]
    {
      keys := keys[i := key];
    }

    /** Lowers the key of a present index; the new key must be strictly smaller. */
    method DecreaseKey(i: int, key: nat)
      requires Valid() && 0 <= i < maxN && i in keys && key < keys[i]
      modifies this
      ensures Valid() && keys == old(keys)[i := key]
    {
      keys := keys[i := key];
    }

    /** Removes and returns an index whose key is minimal (ties broken by the smallest index). */
    method DelMin() returns (min: int)
      requires Valid() && !IsEmpty()
      modifies this
      ensures Valid()
      ensures min in old(keys) && forall j :: j in old(keys) ==> old(keys)[min] <= old(keys)[j]
      ensures keys == old(keys) - {min}
    {
      min := -1;
      var j := 0;
      while j < maxN
        invariant 0 <= j <= maxN
        invariant min == -1 ==> forall k :: 0 <= k < j ==> k !in keys
        invariant min != -1 ==> min in keys && forall k :: 0 <= k < j && k in keys ==> keys[min] <= keys[k]
      {
        if j in keys && (min == -1 || keys[j] < keys[min]) {
          min := j;
        }
        j := j + 1;
      }
      if min == -1 {
        assert false;
      }
      keys := keys - {min};
    }
  }
}
