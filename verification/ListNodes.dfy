/** Nodes of a container that an index refers to by identity, as the cache strategies do with the
    iterators they store (src/include/Poco/LRUStrategy.h, ExpireStrategy.h). */
module ListNodes {

  /** What a cache lookup returns: an empty pointer or one to the value. */
  datatype Shared<V> = Null | Pointer(value: V)

  /** A node for a key, with whatever else the container keeps in it. */
  class Node<K, P> {
    const key: K
    const payload: P

    constructor (key: K, payload: P)
      ensures this.key == key && this.payload == payload
    {
      this.key, this.payload := key, payload;
    }
  }

  /** The list without the given node. */
  function Unlink<K, P>(keys: seq<Node<K, P>>, n: Node<K, P>): seq<Node<K, P>> {
    if keys == [] then [] else if keys[0] == n then keys[1..] else [keys[0]] + Unlink(keys[1..], n)
  }

  /** List and index describe the same keys: every index entry points at the one node of its key. */
  ghost predicate Consistent<K, P>(keys: seq<Node<K, P>>, keyIndex: map<K, Node<K, P>>) {
    && (forall i :: 0 <= i < |keys| ==> keys[i].key in keyIndex && keyIndex[keys[i].key] == keys[i])
    && (forall i, j :: 0 <= i < j < |keys| ==> keys[i] != keys[j])
    && (forall k :: k in keyIndex ==> keyIndex[k] in keys && keyIndex[k].key == k)
  }

  lemma {:induction false} UnlinkSplit<K, P>(keys: seq<Node<K, P>>, n: Node<K, P>, p: nat)
    requires p < |keys| && keys[p] == n
    requires forall i, j :: 0 <= i < j < |keys| ==> keys[i] != keys[j]
    ensures Unlink(keys, n) == keys[..p] + keys[p + 1..]
  {
    if p > 0 {
      UnlinkSplit(keys[1..], n, p - 1);
    }
  }

  lemma {:induction false} ConsistentRest<K, P>(keys: seq<Node<K, P>>, keyIndex: map<K, Node<K, P>>,
          rest: seq<Node<K, P>>, k: K)
    requires Consistent(keys, keyIndex) && k in keyIndex
    requires forall i :: 0 <= i < |rest| ==> rest[i] in keys && rest[i] != keyIndex[k]
    requires forall i, j :: 0 <= i < j < |rest| ==> rest[i] != rest[j]
    requires forall k' :: k' in keyIndex && k' != k ==> keyIndex[k'] in rest
    ensures Consistent(rest, keyIndex - {k})
    ensures Consistent([keyIndex[k]] + rest, keyIndex)
  {
  }

  lemma {:induction false} RestFacts<K, P>(keys: seq<Node<K, P>>, keyIndex: map<K, Node<K, P>>, p: nat)
    requires Consistent(keys, keyIndex) && p < |keys|
    ensures var rest, k := keys[..p] + keys[p + 1..], keys[p].key;
            && k in keyIndex && keyIndex[k] == keys[p]
            && (forall i :: 0 <= i < |rest| ==> rest[i] in keys && rest[i] != keys[p])
            && (forall i, j :: 0 <= i < j < |rest| ==> rest[i] != rest[j])
            && (forall k' :: k' in keyIndex && k' != k ==> keyIndex[k'] in rest)
  {
  }

  lemma {:induction false} UnlinkConsistent<K, P>(keys: seq<Node<K, P>>, keyIndex: map<K, Node<K, P>>, k: K)
    returns (p: nat)
    requires Consistent(keys, keyIndex) && k in keyIndex
    ensures p < |keys| && keys[p] == keyIndex[k] && Unlink(keys, keyIndex[k]) == keys[..p] + keys[p + 1..]
    ensures Consistent(Unlink(keys, keyIndex[k]), keyIndex - {k})
    ensures Consistent([keyIndex[k]] + Unlink(keys, keyIndex[k]), keyIndex)
  {
    p :| 0 <= p < |keys| && keys[p] == keyIndex[k];
    UnlinkSplit(keys, keyIndex[k], p);
    hide Consistent, Unlink;
    RestFacts(keys, keyIndex, p);
    ConsistentRest(keys, keyIndex, keys[..p] + keys[p + 1..], k);
  }

  lemma {:induction false} ConsistentSize<K, P>(keys: seq<Node<K, P>>, keyIndex: map<K, Node<K, P>>)
    requires Consistent(keys, keyIndex)
    ensures |keyIndex| == |keys|
  {
    if keys == [] {
      assert keyIndex.Keys == {};
    } else {
      var k := keys[0].key;
      ConsistentSize(keys[1..], keyIndex - {k});
      assert (keyIndex - {k}).Keys == keyIndex.Keys - {k};
    }
  }
}
