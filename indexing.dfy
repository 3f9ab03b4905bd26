/**
 * The key index of the tree: which node holds each key, and the map from
 * keys to values it stands for.
 */
module Indexing {
  /** The map from each key in index to the value stored at its node. */
  ghost function MapOf<V>(index: map<int, nat>, val: seq<V>): map<int, V>
  {
    map k | k in index && index[k] < |val| :: val[index[k]]
  }

  /** Storing v at a fresh last slot for a new key k adds exactly k to the map. */
  lemma MapOfAdd<V>(index: map<int, nat>, val: seq<V>, k: int, v: V)
    requires k !in index && forall j :: j in index ==> index[j] < |val|
    ensures MapOf(index[k := |val|], val + [v]) == MapOf(index, val)[k := v]
  {
    var m, m' := MapOf(index, val)[k := v], MapOf(index[k := |val|], val + [v]);
    forall j | j in m
      ensures j in m' && m'[j] == m[j]
    {
      if j != k {
        assert index[j] < |val|;
      }
    }
    forall j | j in m'
      ensures j in m
    {
      if j != k {
        assert j in index && index[j] < |val|;
      }
    }
    assert m.Keys == m'.Keys;
  }

  /** index maps each key of the live nodes to its node, one to one, and every node has a value. */
  ghost predicate IndexedBy<V>(key: seq<int>, val: seq<V>, live: set<nat>, index: map<int, nat>)
  {
    && |val| == |key|
    && (forall n {:trigger n in live} :: n in live ==> n < |key|)
    && (forall k {:trigger k in index} :: k in index ==> index[k] in live && key[index[k]] == k)
    && (forall n {:trigger n in live} :: n in live ==> key[n] in index && index[key[n]] == n)
  }

  /** A new node at the next free slot with a new key keeps the index exact, and the map gains the key. */
  lemma IndexAdd<V>(key: seq<int>, val: seq<V>, live: set<nat>, index: map<int, nat>, k: int, v: V,
                    key': seq<int>, val': seq<V>, live': set<nat>, index': map<int, nat>)
    requires IndexedBy(key, val, live, index) && k !in index
    requires key' == key + [k] && val' == val + [v] && live' == live + {|key|} && index' == index[k := |key|]
    ensures IndexedBy(key', val', live', index')
    ensures MapOf(index', val') == MapOf(index, val)[k := v]
  {
    MapOfAdd(index, val, k, v);
  }

  /** Dropping node z, with its key, from the index keeps it exact, and the map loses z's key. */
  lemma IndexRemove<V>(key: seq<int>, val: seq<V>, live: set<nat>, index: map<int, nat>, z: nat)
    requires IndexedBy(key, val, live, index) && z in live
    ensures IndexedBy(key, val, live - {z}, index - {key[z]})
    ensures MapOf(index - {key[z]}, val) == MapOf(index, val) - {key[z]}
  {
    var k := key[z];
    forall n | n in live - {z}
      ensures key[n] in index - {k} && (index - {k})[key[n]] == n
    {
      assert key[n] in index && index[key[n]] == n;
    }
  }
}
