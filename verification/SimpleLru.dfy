/** The recency list of keys and its index from keys to list positions. */
module SimpleLru {
  import opened Bytes

  type Key = seq<byte>

  /** A node of the list. Its identity is what an iterator holds on to. */
  datatype Node = Node(id: nat, key: Key)

  function Keys(list: seq<Node>): (keys: seq<Key>)
    ensures |keys| == |list|
  {
    seq(|list|, i requires 0 <= i < |list| => list[i].key)
  }

  /** The keys other than `k`, in their order. */
  function Without(keys: seq<Key>, k: Key): seq<Key> {
    if keys == [] then []
    else if keys[0] == k then Without(keys[1..], k)
    else [keys[0]] + Without(keys[1..], k)
  }

  /** Most recent first. */
  function Visited(keys: seq<Key>, k: Key): seq<Key> {
    [k] + Without(keys, k)
  }

  ghost predicate Distinct(keys: seq<Key>) {
    forall i, j | 0 <= i < j < |keys| :: keys[i] != keys[j]
  }

  lemma {:induction false} WithoutMembers(keys: seq<Key>, k: Key)
    ensures forall q :: q in Without(keys, k) <==> q in keys && q != k
  {
    if keys != [] {
      WithoutMembers(keys[1..], k);
      assert keys == [keys[0]] + keys[1..];
    }
  }

  lemma {:induction false} WithoutAbsent(keys: seq<Key>, k: Key)
    requires k !in keys
    ensures Without(keys, k) == keys
  {
    if keys != [] {
      WithoutAbsent(keys[1..], k);
    }
  }

  lemma {:induction false} WithoutDistinct(keys: seq<Key>, k: Key)
    requires Distinct(keys)
    ensures Distinct(Without(keys, k))
  {
    if keys != [] {
      var rest := keys[1..];
      WithoutDistinct(rest, k);
      WithoutMembers(rest, k);
      forall j | 0 <= j < |rest|
        ensures rest[j] != keys[0]
      {
        assert rest[j] == keys[j + 1];
      }
      assert keys[0] !in Without(rest, k);
    }
  }

  lemma {:induction false} WithoutAt(keys: seq<Key>, i: nat)
    requires i < |keys| && Distinct(keys)
    ensures Without(keys, keys[i]) == keys[..i] + keys[i + 1..]
  {
    if i == 0 {
      WithoutAbsent(keys[1..], keys[0]);
    } else {
      assert Distinct(keys[1..]);
      WithoutAt(keys[1..], i - 1);
    }
  }

  /** `after` is `before` with `k` brought to the front and the others as they were. */
  ghost predicate BroughtToFront(before: seq<Key>, k: Key, after: seq<Key>) {
    if k in before then exists i :: 0 <= i < |before| && before[i] == k && after == [k] + before[..i] + before[i + 1..]
    else after == [k] + before
  }

  /** A visit puts the key first and keeps the order of the others; nothing is there twice. */
  lemma VisitedMeaning(keys: seq<Key>, k: Key)
    requires Distinct(keys)
    ensures Visited(keys, k)[0] == k && Distinct(Visited(keys, k))
    ensures forall q :: q in Visited(keys, k) <==> q == k || q in keys
    ensures k !in keys ==> Visited(keys, k) == [k] + keys
    ensures |Visited(keys, k)| == |keys| + if k in keys then 0 else 1
    ensures forall i | 0 <= i < |keys| && keys[i] == k :: Visited(keys, k) == [k] + keys[..i] + keys[i + 1..]
    ensures BroughtToFront(keys, k, Visited(keys, k))
    ensures keys != [] && keys[|keys| - 1] != k ==> Visited(keys, k)[|Visited(keys, k)| - 1] == keys[|keys| - 1]
  {
    forall i | 0 <= i < |keys| && keys[i] == k
      ensures Visited(keys, k) == [k] + keys[..i] + keys[i + 1..]
    {
      WithoutAt(keys, i);
    }
    WithoutMembers(keys, k);
    WithoutDistinct(keys, k);
    WithoutSize(keys, k);
    if k !in keys {
      WithoutAbsent(keys, k);
    }
  }

  lemma {:induction false} WithoutSize(keys: seq<Key>, k: Key)
    requires Distinct(keys)
    ensures |Without(keys, k)| == |keys| - if k in keys then 1 else 0
  {
    if keys != [] {
      WithoutSize(keys[1..], k);
      assert keys == [keys[0]] + keys[1..];
    }
  }

  function Erase(list: seq<Node>, id: nat): seq<Node> {
    if list == [] then [] else if list[0].id == id then list[1..] else [list[0]] + Erase(list[1..], id)
  }

  /** No two nodes have the same identity, and the index names each node by its key. */
  ghost predicate Indexed(list: seq<Node>, index: map<Key, nat>, bound: nat) {
    && (forall i, j | 0 <= i < j < |list| :: list[i].id != list[j].id)
    && (forall i | 0 <= i < |list| :: list[i].id < bound && list[i].key in index && index[list[i].key] == list[i].id)
    && forall k | k in index :: k in Keys(list)
  }

  lemma IndexedKeys(list: seq<Node>, index: map<Key, nat>, bound: nat)
    requires Indexed(list, index, bound)
    ensures Distinct(Keys(list))
    ensures forall k :: k in index <==> k in Keys(list)
  {
    forall k | k in Keys(list)
      ensures k in index
    {
      var i :| 0 <= i < |Keys(list)| && Keys(list)[i] == k;
      assert list[i].key == k;
    }
    forall i, j | 0 <= i < j < |list|
      ensures Keys(list)[i] != Keys(list)[j]
    {
      assert list[i].id != list[j].id;
    }
  }

  lemma VisitedBrings(keys: seq<Key>, k: Key)
    requires Distinct(keys)
    ensures BroughtToFront(keys, k, Visited(keys, k))
  {
    VisitedMeaning(keys, k);
  }

  /** Where position `p` was before position `i` was taken out. */
  function Skip(p: int, i: int): int {
    if p < i then p else p + 1
  }

  lemma TakenOut<T>(s: seq<T>, i: nat)
    requires i < |s|
    ensures forall p | 0 <= p < |s| - 1 :: (s[..i] + s[i + 1..])[p] == s[Skip(p, i)]
  {
  }

  lemma RemoveAt(list: seq<Node>, index: map<Key, nat>, bound: nat, i: nat)
    requires Indexed(list, index, bound) && i < |list|
    ensures var rest := list[..i] + list[i + 1..];
            Indexed(rest, index - {list[i].key}, bound) && Keys(rest) == Keys(list)[..i] + Keys(list)[i + 1..]
  {
    var rest, index' := list[..i] + list[i + 1..], index - {list[i].key};
    TakenOut(list, i);
    forall p, q | 0 <= p < q < |rest|
      ensures rest[p].id != rest[q].id
    {
      assert list[Skip(p, i)].id != list[Skip(q, i)].id;
    }
    forall p | 0 <= p < |rest|
      ensures rest[p].id < bound && rest[p].key in index' && index'[rest[p].key] == rest[p].id
    {
      RemovedKeyGone(list, index, bound, i, Skip(p, i));
    }
    RemovedKeys(list, i);
    forall k | k in index'
      ensures k in Keys(rest)
    {
      var j :| 0 <= j < |Keys(list)| && Keys(list)[j] == k;
      assert Keys(rest)[if j < i then j else j - 1] == k;
    }
  }

  lemma RemovedKeys(list: seq<Node>, i: nat)
    requires i < |list|
    ensures Keys(list[..i] + list[i + 1..]) == Keys(list)[..i] + Keys(list)[i + 1..]
  {
  }

  lemma RemovedKeyGone(list: seq<Node>, index: map<Key, nat>, bound: nat, i: nat, j: nat)
    requires Indexed(list, index, bound) && i < |list| && j < |list| && i != j
    ensures list[j].key != list[i].key && list[j].id < bound && list[j].key in index && index[list[j].key] == list[j].id
  {
    assert if i < j then list[i].id != list[j].id else list[j].id != list[i].id;
  }

  lemma PushFront(list: seq<Node>, index: map<Key, nat>, bound: nat, k: Key)
    requires Indexed(list, index, bound) && k !in index
    ensures Indexed([Node(bound, k)] + list, index[k := bound], bound + 1)
    ensures Keys([Node(bound, k)] + list) == [k] + Keys(list)
  {
    var longer := [Node(bound, k)] + list;
    assert Keys(longer) == [k] + Keys(list);
    forall q | q in index
      ensures q in Keys(longer)
    {
      var i :| 0 <= i < |Keys(list)| && Keys(list)[i] == q;
      assert Keys(longer)[i + 1] == q;
    }
    assert Keys(longer)[0] == k;
  }

  lemma {:induction false} ErasedAt(list: seq<Node>, i: nat)
    requires i < |list| && forall j | 0 <= j < i :: list[j].id != list[i].id
    ensures Erase(list, list[i].id) == list[..i] + list[i + 1..]
  {
    if i > 0 {
      ErasedAt(list[1..], i - 1);
    }
  }

  lemma EraseNode(list: seq<Node>, index: map<Key, nat>, bound: nat, k: Key)
    requires Indexed(list, index, bound) && k in index
    ensures Indexed(Erase(list, index[k]), index - {k}, bound) && Keys(Erase(list, index[k])) == Without(Keys(list), k)
  {
    IndexedKeys(list, index, bound);
    var i :| 0 <= i < |Keys(list)| && Keys(list)[i] == k;
    assert list[i].key == k;
    ErasedAt(list, i);
    WithoutAt(Keys(list), i);
    RemoveAt(list, index, bound, i);
  }

  class SimpleLru {
    var lruMem: seq<Node>
    var keyToIter: map<Key, nat>
    var nextId: nat

    ghost predicate Valid()
      reads this
    {
      Indexed(lruMem, keyToIter, nextId)
    }

    /** The keys, most recently visited first. */
    ghost function Order(): seq<Key>
      reads this
    {
      Keys(lruMem)
    }

    constructor ()
      ensures Valid() && Order() == []
    {
      lruMem, keyToIter, nextId := [], map[], 0;
    }

    /** The least recently visited key, empty when there is none. */
    method GetRemoveKey() returns (key: Key)
      requires Valid()
      ensures key == if Order() == [] then [] else Order()[|Order()| - 1]
    {
      if |lruMem| == 0 {
        return [];
      } else {
        return lruMem[|lruMem| - 1].key;
      }
    }

    /** Drops the least recently visited key. */
    method RemoveKey() returns (key: Key)
      requires Valid() && Order() != []
      modifies this
      ensures Valid()
      ensures key == old(Order())[|old(Order())| - 1] && Order() == old(Order())[..|old(Order())| - 1]
    {
      IndexedKeys(lruMem, keyToIter, nextId);
      RemoveAt(lruMem, keyToIter, nextId, |lruMem| - 1);
      assert lruMem[..|lruMem| - 1] + lruMem[|lruMem|..] == lruMem[..|lruMem| - 1];
      assert Keys(lruMem)[..|lruMem| - 1] + Keys(lruMem)[|lruMem|..] == Keys(lruMem)[..|lruMem| - 1];
      key := lruMem[|lruMem| - 1].key;
      lruMem := lruMem[..|lruMem| - 1];
      if key in keyToIter {
        keyToIter := keyToIter - {key};
      }
    }

    /** Makes `key` the most recently visited one. */
    method VisitKey(key: Key)
      requires Valid()
      modifies this
      ensures Valid() && Order() == Visited(old(Order()), key)
      ensures BroughtToFront(old(Order()), key, Order())
    {
      IndexedKeys(lruMem, keyToIter, nextId);
      VisitedBrings(Order(), key);
      if key !in keyToIter {
        WithoutAbsent(Order(), key);
        PushFront(lruMem, keyToIter, nextId, key);
        lruMem := [Node(nextId, key)] + lruMem;
        keyToIter := keyToIter[key := nextId];
      } else {
        var it := keyToIter[key];
        EraseNode(lruMem, keyToIter, nextId, key);
        lruMem := Erase(lruMem, it);
        PushFront(lruMem, keyToIter - {key}, nextId, key);
        assert (keyToIter - {key})[key := nextId] == keyToIter[key := nextId];
        lruMem := [Node(nextId, key)] + lruMem;
        keyToIter := keyToIter[key := nextId];
      }
      nextId := nextId + 1;
    }
  }
}
