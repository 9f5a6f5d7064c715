/**
 The many-readers-one-writer wrapper, seen by the writer: self-checking values in the array hash table,
 and a recency list of keys from which it evicts when the table is out of slots.
 */
module Mrsw {
  import opened Bytes
  import opened ErrorCodes
  import opened HashSlots
  import opened HashArr
  import opened SlotReader
  import opened Eviction
  import Md5
  import SimpleLru
  import ValueCodec

  ghost predicate LongEnough(contents: map<Key, Value>, k: Key)
    requires k in contents
  {
    |contents[k]| >= ValueCodec.LEN_SIZE
  }

  ghost predicate Lengthy(contents: map<Key, Value>) {
    forall k {:trigger LongEnough(contents, k)} | k in contents :: LongEnough(contents, k)
  }

  ghost predicate Stored(contents: map<Key, Value>) {
    [] !in contents && Lengthy(contents)
  }

  /** The keys of a listing visited one after the other. */
  ghost function VisitAll(order: Order, listing: seq<(Key, Value)>): Order
    decreases |listing|
  {
    if listing == [] then order
    else VisitAll(if listing[0].0 == [] then order else SimpleLru.Visited(order, listing[0].0), listing[1..])
  }

  /** The value of an entry is one that a reader accepts. */
  ghost predicate Sound(compress: Md5.Compression, p: (Key, Value)) {
    |p.1| >= ValueCodec.LEN_SIZE && ValueCodec.VerifyShmValue(compress, p.1).Verified?
  }

  ghost predicate AllSound(compress: Md5.Compression, listing: seq<(Key, Value)>)
    decreases |listing|
  {
    listing == [] || (Sound(compress, listing[0]) && AllSound(compress, listing[1..]))
  }

  /** Some value has been stored: the bytes start with its encoding. */
  ghost predicate Readable(compress: Md5.Compression, stored: Value) {
    exists v :: Encodes(compress, stored, v)
  }

  ghost predicate Encodes(compress: Md5.Compression, stored: Value, v: Value) {
    |v| < TWO_TO_32 && ValueCodec.EncodeValueStr(compress, v) <= stored
  }

  lemma SoundIffReadable(compress: Md5.Compression, p: (Key, Value))
    requires |p.1| >= ValueCodec.LEN_SIZE
    ensures Sound(compress, p) <==> Readable(compress, p.1)
  {
    if Sound(compress, p) {
      var v := ValueCodec.VerifyShmValue(compress, p.1).value;
      ValueCodec.VerifyIffPrefix(compress, p.1, v);
      assert Encodes(compress, p.1, v);
    }
    if v :| Encodes(compress, p.1, v) {
      ValueCodec.VerifyIffPrefix(compress, p.1, v);
    }
  }

  lemma {:induction false} AllSoundIffReadable(compress: Md5.Compression, listing: seq<(Key, Value)>)
    requires forall p | p in listing :: |p.1| >= ValueCodec.LEN_SIZE
    ensures AllSound(compress, listing) <==> forall p | p in listing :: Readable(compress, p.1)
    decreases |listing|
  {
    if listing != [] {
      assert listing == [listing[0]] + listing[1..] && listing[0] in listing;
      SoundIffReadable(compress, listing[0]);
      AllSoundIffReadable(compress, listing[1..]);
    }
  }

  lemma {:induction false} VisitAllNames(order: Order, listing: seq<(Key, Value)>)
    requires SimpleLru.Distinct(order)
    ensures SimpleLru.Distinct(VisitAll(order, listing))
    ensures forall k :: k in VisitAll(order, listing) <==> k in order || (k != [] && exists p :: p in listing && p.0 == k)
    decreases |listing|
  {
    if listing != [] {
      var k, rest := listing[0].0, listing[1..];
      SimpleLru.VisitedMeaning(order, k);
      VisitAllNames(if k == [] then order else SimpleLru.Visited(order, k), rest);
      assert listing == [listing[0]] + rest;
    }
  }

  /** What the wrapper makes of a stored value. */
  ghost function Reading(compress: Md5.Compression, contents: map<Key, Value>, k: Key): ValueCodec.Verdict
    requires Stored(contents) && k in contents
  {
    assert LongEnough(contents, k);
    ValueCodec.VerifyShmValue(compress, contents[k])
  }

  lemma StoredDrop(contents: map<Key, Value>, k: Key)
    requires Stored(contents)
    ensures Stored(contents - {k})
  {
    forall q | q in contents - {k} ensures LongEnough(contents - {k}, q) {
      assert LongEnough(contents, q);
    }
  }

  lemma StoredPut(n: nat, contents: map<Key, Value>, k: Key, v: Value)
    requires Stored(contents) && k != [] && |v| >= ValueCodec.LEN_SIZE
    ensures Stored(PutSpec(n, contents, k, v).1)
  {
    var after := PutSpec(n, contents, k, v).1;
    forall q | q in after ensures LongEnough(after, q) {
      assert q in contents ==> LongEnough(contents, q);
    }
  }

  /** The keys of a listing, last one first. */
  function Backward(l: seq<(Key, Value)>): Order {
    if l == [] then [] else Backward(l[1..]) + [l[0].0]
  }

  /** No key of the listing is known or comes twice. */
  ghost predicate AllNew(order: Order, l: seq<(Key, Value)>)
    decreases |l|
  {
    l == [] || (l[0].0 != [] && l[0].0 !in order && AllNew([l[0].0] + order, l[1..]))
  }

  lemma {:induction false} AllNewIf(order: Order, l: seq<(Key, Value)>)
    requires forall i | 0 <= i < |l| :: l[i].0 != [] && l[i].0 !in order
    requires forall i, j | 0 <= i < j < |l| :: l[i].0 != l[j].0
    ensures AllNew(order, l)
    decreases |l|
  {
    if l != [] {
      var rest := l[1..];
      forall i | 0 <= i < |rest|
        ensures rest[i].0 != [] && rest[i].0 !in [l[0].0] + order
      {
        assert rest[i] == l[i + 1];
      }
      AllNewIf([l[0].0] + order, rest);
    }
  }

  lemma Regroup(a: Order, k: Key, b: Order)
    ensures a + ([k] + b) == a + [k] + b
  {
  }

  /** Visiting new keys in turn leaves the last of them in front. */
  lemma {:induction false} VisitAllReverses(order: Order, l: seq<(Key, Value)>)
    requires AllNew(order, l)
    ensures VisitAll(order, l) == Backward(l) + order
    decreases |l|
  {
    if l != [] {
      var next := [l[0].0] + order;
      SimpleLru.WithoutAbsent(order, l[0].0);
      VisitAllReverses(next, l[1..]);
      Regroup(Backward(l[1..]), l[0].0, order);
    }
  }

  class MrswHashtable {
    const compress: Md5.Compression
    const table: HashArr
    const lru: SimpleLru.SimpleLru
    const isLruEliminate: bool

    /** No key is empty, every stored value has a length word, and an evicting wrapper knows all stored keys. */
    ghost predicate Valid()
      reads table, table.slots, lru
    {
      && table.Valid() && lru.Valid()
      && Stored(table.contents)
      && [] !in lru.Order()
      && (isLruEliminate ==> Covers(lru.Order(), table.contents))
    }

    /** A wrapper of a fresh table. */
    constructor (maxSlotNum: nat, isLruEliminate: bool, hashFn: Key -> nat, compress: Md5.Compression)
      requires 0 < maxSlotNum
      ensures Valid() && fresh(table) && fresh(table.slots) && fresh(lru)
      ensures table.contents == map[] && table.maxslots == maxSlotNum && lru.Order() == []
      ensures this.isLruEliminate == isLruEliminate && this.compress == compress
    {
      this.compress := compress;
      this.isLruEliminate := isLruEliminate;
      table := new HashArr(maxSlotNum, hashFn);
      lru := new SimpleLru.SimpleLru();
    }

    /** A wrapper of a table that is already there. Its list is filled by `InitLruMem`. */
    constructor Attach(table: HashArr, isLruEliminate: bool, compress: Md5.Compression)
      ensures lru.Valid() && lru.Order() == [] && fresh(lru) && this.table == table
      ensures this.isLruEliminate == isLruEliminate && this.compress == compress
    {
      this.compress := compress;
      this.isLruEliminate := isLruEliminate;
      this.table := table;
      lru := new SimpleLru.SimpleLru();
    }

    // ------------------------------------------------------------ reading

    method GetValue(key: Key) returns (r: ErrorCode, val: Value)
      requires Valid()
      ensures r == if key == [] then InvalidParams
                   else if key !in table.contents then NotFound
                   else if Reading(compress, table.contents, key).Verified? then Ok else DataMess
      ensures r.Ok? ==> Reading(compress, table.contents, key) == ValueCodec.Verified(val)
      ensures r.Ok? <==> key in table.contents && Readable(compress, table.contents[key])
      ensures r.Ok? ==> Encodes(compress, table.contents[key], val)
    {
      if key == [] {
        return InvalidParams, [];
      }
      var fetched := table.Get(key);
      if fetched.Missing? {
        return NotFound, [];
      }
      assert LongEnough(table.contents, key);
      SoundIffReadable(compress, (key, fetched.value));
      var verdict := ValueCodec.VerifyShmValue(compress, fetched.value);
      if verdict.Verified? {
        ValueCodec.VerifyIffPrefix(compress, fetched.value, verdict.value);
        return Ok, verdict.value;
      }
      return DataMess, [];
    }

    method IsExist(key: Key) returns (r: ErrorCode, exist: bool)
      requires Valid()
      ensures r == if key == [] then InvalidParams else Ok
      ensures r.Ok? ==> exist == (key in table.contents)
    {
      if key == [] {
        return InvalidParams, false;
      }
      exist := table.Exist(key);
      return Ok, exist;
    }

    /** The next entry of the table at or after position `idx`; past the last one the position grows beyond the table. */
    method GetNextKVPair(idx: nat) returns (r: ErrorCode, key: Key, val: Value, next: nat)
      requires table.Valid() && Lengthy(table.contents)
      ensures var l := Listing(table.slots[..], table.contents, idx);
              if l == [] then r == TraverseTableEnd && next > table.maxslots
              else
                && r == (if Sound(compress, l[0]) then Ok else DataMess)
                && idx < next <= table.maxslots && Listing(table.slots[..], table.contents, next) == l[1..]
                && (r.Ok? <==> Readable(compress, l[0].1))
                && (r.Ok? ==> key == l[0].0 && Encodes(compress, l[0].1, val))
    {
      var entry, at := table.GetNext(idx);
      key, val, next := [], [], at;
      if entry.None? {
        next := next + 1;
        if next >= table.maxslots + 1 {
          return TraverseTableEnd, key, val, next;
        }
        return NotFound, key, val, next;
      }
      ListingMembers(table.slots[..], table.contents, idx);
      assert entry.value in Listing(table.slots[..], table.contents, idx);
      assert LongEnough(table.contents, entry.value.0);
      SoundIffReadable(compress, entry.value);
      var verdict := ValueCodec.VerifyShmValue(compress, entry.value.1);
      if verdict.Verified? {
        ValueCodec.VerifyIffPrefix(compress, entry.value.1, verdict.value);
      }
      if verdict.Mess? {
        return DataMess, key, val, next;
      }
      return Ok, entry.value.0, verdict.value, next;
    }

    method GetStats() returns (maxSlots: int, usedSlots: int, usedKeys: int)
      requires Valid()
      ensures maxSlots == table.maxslots && usedSlots == TotalNeed(table.contents) && usedKeys == |table.contents.Keys|
    {
      usedKeys, maxSlots, usedSlots := table.Size();
    }

    /** Visits the keys of the table in table order; a value that does not verify stops it. */
    method InitLruMem() returns (r: ErrorCode)
      requires table.Valid() && Lengthy(table.contents) && lru.Valid()
      modifies lru
      ensures lru.Valid()
      ensures var l := Listing(table.slots[..], table.contents, 0);
              && r == (if AllSound(compress, l) then Ok else LruInit)
              && (r.Ok? ==> lru.Order() == VisitAll(old(lru.Order()), l))
      ensures r.Ok? <==> forall k | k in table.contents :: Readable(compress, table.contents[k])
    {
      StoredReadable();
      var _, maxSlots, usedSlots := table.Size();
      ghost var s, contents := table.slots[..], table.contents;
      ghost var l := Listing(s, contents, 0);
      ghost var order := lru.Order();
      var idx := 0;
      while idx < maxSlots
        invariant lru.Valid() && 0 <= idx
        invariant VisitAll(lru.Order(), Listing(s, contents, idx)) == VisitAll(order, l)
        invariant AllSound(compress, Listing(s, contents, idx)) == AllSound(compress, l)
      {
        var ret, tblkey, tblval, next := GetNextKVPair(idx);
        idx := next;
        if ret == Ok {
          if tblkey != [] {
            lru.VisitKey(tblkey);
          }
        } else if ret == TraverseTableEnd {
          break;
        } else {
          return LruInit;
        }
      }
      return Ok;
    }

    /** The values of the table are sound exactly if each starts with an encoding. */
    lemma StoredReadable()
      requires table.Valid() && Lengthy(table.contents)
      ensures AllSound(compress, Listing(table.slots[..], table.contents, 0))
              <==> forall k | k in table.contents :: Readable(compress, table.contents[k])
    {
      var l := Listing(table.slots[..], table.contents, 0);
      table.ListsAll();
      ListingMembers(table.slots[..], table.contents, 0);
      forall p | p in l
        ensures |p.1| >= ValueCodec.LEN_SIZE
      {
        assert LongEnough(table.contents, p.0);
      }
      AllSoundIffReadable(compress, l);
      forall k | k in table.contents
        ensures (k, table.contents[k]) in l
      {
      }
    }

    /** After a successful start what stands last in the table counts as the most recent. */
    lemma InitLruMemOrder()
      requires table.Valid() && Stored(table.contents)
      requires lru.Order() == VisitAll([], Listing(table.slots[..], table.contents, 0))
      ensures lru.Order() == Backward(Listing(table.slots[..], table.contents, 0))
    {
      var l := Listing(table.slots[..], table.contents, 0);
      table.ListsAll();
      ListingMembers(table.slots[..], table.contents, 0);
      assert forall i | 0 <= i < |l| :: l[i] in l;
      AllNewIf([], l);
      VisitAllReverses([], l);
      assert Backward(l) + [] == Backward(l);
    }

    /** After a successful start the list names exactly the stored keys, so that the wrapper may evict. */
    lemma InitLruMemCovers()
      requires table.Valid() && lru.Valid() && Stored(table.contents)
      requires lru.Order() == VisitAll([], Listing(table.slots[..], table.contents, 0))
      ensures Valid() && forall k :: k in lru.Order() <==> k in table.contents
    {
      var l := Listing(table.slots[..], table.contents, 0);
      table.ListsAll();
      VisitAllNames([], l);
      forall k | k in table.contents
        ensures k in lru.Order()
      {
        assert (k, table.contents[k]) in l;
      }
      forall p | p in l
        ensures p.0 in table.contents
      {
        assert p == (p.0, p.1);
      }
    }

    // ------------------------------------------------------------ writing

    /** Removing a key that is not there is no error, and the recency list is not told either way. */
    method DeleteKey(key: Key) returns (r: ErrorCode)
      requires Valid()
      modifies table, table.slots
      ensures Valid()
      ensures r == if key == [] then InvalidParams else Ok
      ensures table.contents == (if key == [] then old(table.contents) else old(table.contents) - {key})
      ensures lru.Order() == old(lru.Order())
    {
      if key == [] {
        return InvalidParams;
      }
      StoredDrop(table.contents, key);
      CoversDrop(lru.Order(), table.contents, key);
      var ret := table.Remove(key);
      if ret.Failure? {
        return if ret.error.ENOENT? then Ok else Other;
      }
      return Ok;
    }

    /** The recency list keeps the cleared keys. */
    method ClearTable() returns (r: ErrorCode)
      requires Valid()
      modifies table, table.slots
      ensures Valid()
      ensures r == Ok && table.contents == map[] && lru.Order() == old(lru.Order())
    {
      table.Clear();
      return Ok;
    }

    /** Evicts the least recent key; a used-up list shows as a refusal to delete the empty key. */
    method EvictOne() returns (r: ErrorCode)
      requires Valid()
      modifies table, table.slots, lru
      ensures Valid()
      ensures old(lru.Order()) == [] ==>
                r == InvalidParams && table.contents == old(table.contents) && lru.Order() == []
      ensures old(lru.Order()) != [] ==>
                var o := old(lru.Order());
                r == Ok && table.contents == old(table.contents) - {o[|o| - 1]} && lru.Order() == o[..|o| - 1]
    {
      var removeKey := lru.GetRemoveKey();
      if lru.Order() != [] {
        DropOldest(lru.Order(), table.contents);
      }
      r := DeleteKey(removeKey);
      if r == Ok {
        var _ := lru.RemoveKey();
      }
    }

    /** What holds while `key` is being stored: it may have entered the table but not yet the list. */
    ghost predicate Storing(key: Key)
      reads table, table.slots, lru
    {
      && table.Valid() && lru.Valid()
      && Stored(table.contents)
      && [] !in lru.Order()
      && (isLruEliminate ==> Covers(lru.Order(), table.contents - {key}))
    }

    method PutEncoded(key: Key, stored: Value) returns (ret: Outcome)
      requires Valid() && key != [] && |key| <= KEYSIZE && table.Countable(key) && |stored| >= ValueCodec.LEN_SIZE
      modifies table, table.slots
      ensures Storing(key) && lru.Order() == old(lru.Order()) && (ret.Failure? ==> Valid() && ret.error == ENOBUFS)
      ensures (ret, table.contents) == PutSpec(table.maxslots, old(table.contents), key, stored)
    {
      StoredPut(table.maxslots, table.contents, key, stored);
      CoversPut(table.maxslots, lru.Order(), table.contents, key, stored);
      ret := table.Put(key, stored);
    }

    /** A turn of the eviction loop. `others` bounds the other keys that the table may hold meanwhile. */
    method EvictAndPut(key: Key, stored: Value, ghost others: set<Key>) returns (ecRet: ErrorCode, ret: Outcome)
      requires Valid() && key != [] && |key| <= KEYSIZE && |stored| >= ValueCodec.LEN_SIZE
      requires table.contents.Keys - {key} <= others && |SameHome(table.home, others, At(table.home, key))| < 0x7FFF
      modifies table, table.slots, lru
      ensures Storing(key) && table.contents.Keys - {key} <= others
      ensures ret.Failure? ==> Valid() && ret.error == ENOBUFS
      ensures old(lru.Order()) == [] ==>
                ecRet == InvalidParams && ret.Failure? && table.contents == old(table.contents) && lru.Order() == []
      ensures old(lru.Order()) != [] ==>
                var c, o := old(table.contents), old(lru.Order());
                && ecRet == Ok && lru.Order() == o[..|o| - 1]
                && (ret, table.contents) == PutSpec(table.maxslots, c - {o[|o| - 1]}, key, stored)
    {
      ecRet := EvictOne();
      if ecRet != Ok {
        return ecRet, Failure(ENOBUFS);
      }
      assert table.contents.Keys - {key} <= others;
      table.CountableWithin(others, key);
      PutKeys(table.maxslots, table.contents, key, stored);
      ret := PutEncoded(key, stored);
    }

    method Visit(key: Key)
      requires Storing(key) && key != []
      modifies lru
      ensures Valid() && lru.Order() == SimpleLru.Visited(old(lru.Order()), key)
    {
      VisitCovers(lru.Order(), table.contents, key);
      lru.VisitKey(key);
    }

    method StoreEncoded(key: Key, stored: Value) returns (r: ErrorCode)
      requires Valid() && key != [] && |key| <= KEYSIZE && table.Countable(key) && |stored| >= ValueCodec.LEN_SIZE
      modifies table, table.slots, lru
      ensures Valid()
      ensures (r, table.contents, lru.Order()) ==
              StoreSpec(isLruEliminate, table.maxslots, old(table.contents), old(lru.Order()), key, stored)
      ensures !isLruEliminate ==> StoredPlainly(table.maxslots, old(table.contents), old(lru.Order()), key, stored,
                                                r, table.contents, lru.Order())
    {
      SimpleLru.IndexedKeys(lru.lruMem, lru.keyToIter, lru.nextId);
      PlainStore(table.maxslots, table.contents, lru.Order(), key, stored);
      ghost var c0, o0 := table.contents, lru.Order();
      PutKeys(table.maxslots, table.contents, key, stored);
      var ret := PutEncoded(key, stored);
      if ret.Failure? && ret.error == ENOBUFS {
        if isLruEliminate {
          ghost var c, o := c0, o0;
          while ret.Failure? && ret.error == ENOBUFS
            invariant Storing(key) && lru.Order() == o && table.contents.Keys - {key} <= c0.Keys - {key}
            invariant ret.Failure? ==> Valid() && ret.error == ENOBUFS
            invariant (ret, table.contents) == PutSpec(table.maxslots, c, key, stored)
            invariant Evict(table.maxslots, c, o, key, stored) == Evict(table.maxslots, c0, o0, key, stored)
            decreases |o|, ret.Failure?
          {
            c := table.contents;
            var ecRet;
            ecRet, ret := EvictAndPut(key, stored, c0.Keys - {key});
            if ecRet != Ok {
              return ecRet;
            }
            c, o := c - {o[|o| - 1]}, o[..|o| - 1];
          }
        } else {
          return NotEnoughSpace;
        }
      }
      if ret.Success? {
        Visit(key);
      }
      return if ret.Success? then Ok else StoreKVFailed;
    }

    /** Stores a value in its encoded form. */
    method SetValue(key: Key, val: Value) returns (r: ErrorCode)
      requires Valid() && |key| <= KEYSIZE && table.Countable(key)
      modifies table, table.slots, lru
      ensures Valid()
      ensures (r, table.contents, lru.Order()) ==
              if key == [] then (InvalidParams, old(table.contents), old(lru.Order()))
              else if key in old(table.contents) && Reading(compress, old(table.contents), key) == ValueCodec.Verified(val)
              then (SetSameValue, old(table.contents), old(lru.Order()))
              else StoreSpec(isLruEliminate, table.maxslots, old(table.contents), old(lru.Order()), key,
                             ValueCodec.EncodeValueStr(compress, val))
      ensures isLruEliminate && key != [] && r != SetSameValue ==>
                r == if Need(|ValueCodec.EncodeValueStr(compress, val)|) <= table.maxslots then Ok else InvalidParams
      ensures !isLruEliminate && key != [] && r != SetSameValue ==>
                StoredPlainly(table.maxslots, old(table.contents), old(lru.Order()), key,
                              ValueCodec.EncodeValueStr(compress, val), r, table.contents, lru.Order())
      ensures r.SetSameValue? ==> key in table.contents && Reading(compress, table.contents, key) == ValueCodec.Verified(val)
      ensures r.Ok? ==> key in table.contents && table.contents[key] == ValueCodec.EncodeValueStr(compress, val)
    {
      if key == [] {
        return InvalidParams;
      }
      var ret, valInTbl := GetValue(key);
      if ret == Ok && val == valInTbl {
        return SetSameValue;
      }
      var tmpVal := ValueCodec.EncodeValueStr(compress, val);
      if isLruEliminate {
        EvictSucceedsIff(table.maxslots, table.contents, lru.Order(), key, tmpVal);
      }
      StoredMeaning(isLruEliminate, table.maxslots, table.contents, lru.Order(), key, tmpVal);
      r := StoreEncoded(key, tmpVal);
    }
  }

  lemma ReadingOfEncoded(compress: Md5.Compression, contents: map<Key, Value>, k: Key, val: Value)
    requires Stored(contents) && k in contents && contents[k] == ValueCodec.EncodeValueStr(compress, val)
    ensures Reading(compress, contents, k) == ValueCodec.Verified(val) <==> |val| < TWO_TO_32
  {
    ValueCodec.RoundTrip(compress, val);
  }

  /** What was set is what is read, exactly when its length fits the 32-bit length word. */
  method SetThenGet(w: MrswHashtable, key: Key, val: Value) returns (stored: ErrorCode, get: ErrorCode, got: Value)
    requires w.Valid() && |key| <= KEYSIZE && w.table.Countable(key)
    modifies w.table, w.table.slots, w.lru
    ensures w.Valid()
    ensures stored == Ok ==> (get == Ok && got == val <==> |val| < TWO_TO_32)
    ensures stored == SetSameValue ==> get == Ok && got == val
  {
    stored := w.SetValue(key, val);
    if stored == Ok {
      ReadingOfEncoded(w.compress, w.table.contents, key, val);
    }
    get, got := w.GetValue(key);
  }
}
