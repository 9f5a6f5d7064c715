/** What storing under eviction does to the table's contents and to the recency list. */
module Eviction {
  import opened ErrorCodes
  import opened HashSlots
  import opened HashArr
  import SimpleLru

  type Order = seq<Key>

  /** Put; while the table is out of slots, drop the least recent key from both and put again. */
  ghost function Evict(n: nat, contents: map<Key, Value>, order: Order, k: Key, v: Value)
    : (ErrorCode, map<Key, Value>, Order)
    decreases |order|
  {
    var (outcome, after) := PutSpec(n, contents, k, v);
    if outcome.Success? then (Ok, after, SimpleLru.Visited(order, k))
    else if order == [] then (InvalidParams, after, order)
    else Evict(n, after - {order[|order| - 1]}, order[..|order| - 1], k, v)
  }

  /** Storing an encoded value, with eviction or without. */
  ghost function StoreSpec(evicting: bool, n: nat, contents: map<Key, Value>, order: Order, k: Key, v: Value)
    : (ErrorCode, map<Key, Value>, Order)
  {
    if evicting then Evict(n, contents, order, k, v)
    else
      var (outcome, after) := PutSpec(n, contents, k, v);
      if outcome.Success? then (Ok, after, SimpleLru.Visited(order, k)) else (NotEnoughSpace, after, order)
  }

  /** The value goes in: the table is not full, and there is room once the key's old value is gone. */
  ghost predicate Fits(n: nat, contents: map<Key, Value>, k: Key, v: Value) {
    TotalNeed(contents) < n && TotalNeed(contents - {k}) + Need(|v|) <= n
  }

  /** The contents that remain when all but the `j` most recent keys are evicted. */
  ghost function Evicted(contents: map<Key, Value>, order: Order, j: nat): map<Key, Value>
    requires j <= |order|
  {
    contents - (set q | q in order[j..])
  }

  ghost predicate Listed(order: Order, k: Key) {
    k in order
  }

  ghost predicate Covers(order: Order, contents: map<Key, Value>) {
    forall q {:trigger Listed(order, q)} | q in contents :: Listed(order, q)
  }

  /** What the list looks like without its least recent key. */
  lemma DropOldest(order: Order, contents: map<Key, Value>)
    requires order != [] && [] !in order
    ensures var last, rest := order[|order| - 1], order[..|order| - 1];
            && last != [] && [] !in rest
            && (Covers(order, contents) ==> Covers(rest, contents - {last}))
  {
    var last, rest := order[|order| - 1], order[..|order| - 1];
    assert order == rest + [last] && last in order;
    if Covers(order, contents) {
      CoverShrinks(order, contents);
    }
  }

  lemma CoversDrop(order: Order, contents: map<Key, Value>, k: Key)
    ensures Covers(order, contents) ==> Covers(order, contents - {k})
  {
    if Covers(order, contents) {
      forall q | q in contents - {k} ensures Listed(order, q) {
        assert Listed(order, q);
      }
    }
  }

  /** After a put the list names every stored key but perhaps the new one. */
  lemma CoversPut(n: nat, order: Order, contents: map<Key, Value>, k: Key, v: Value)
    ensures var (outcome, after) := PutSpec(n, contents, k, v);
            Covers(order, contents) ==> Covers(order, after - {k}) && (outcome.Failure? ==> Covers(order, after))
  {
    var (outcome, after) := PutSpec(n, contents, k, v);
    if Covers(order, contents) {
      forall q | q in contents ensures Listed(order, q) {
        assert Listed(order, q);
      }
    }
  }

  lemma PutKeys(n: nat, contents: map<Key, Value>, k: Key, v: Value)
    ensures PutSpec(n, contents, k, v).1.Keys - {k} <= contents.Keys - {k}
  {
  }

  lemma CoverShrinks(order: Order, contents: map<Key, Value>)
    requires order != [] && Covers(order, contents)
    ensures Covers(order[..|order| - 1], contents - {order[|order| - 1]})
  {
    var last, rest := order[|order| - 1], order[..|order| - 1];
    forall q | q in contents - {last} ensures Listed(rest, q) {
      assert Listed(order, q) && order == rest + [last];
    }
  }

  /** A visited key is known, and nothing is forgotten. */
  lemma VisitCovers(order: Order, contents: map<Key, Value>, k: Key)
    ensures Covers(order, contents - {k}) ==> Covers(SimpleLru.Visited(order, k), contents)
    ensures k != [] && [] !in order ==> [] !in SimpleLru.Visited(order, k)
  {
    SimpleLru.WithoutMembers(order, k);
    var visited := SimpleLru.Visited(order, k);
    if Covers(order, contents - {k}) {
      forall q | q in contents ensures Listed(visited, q) {
        assert q != k ==> q in contents - {k} && Listed(order, q);
      }
    }
  }

  /** A put that did not fit may have cost the key its old value, but what fits later is the same. */
  lemma FitsWithout(n: nat, contents: map<Key, Value>, k: Key, v: Value, gone: set<Key>)
    requires TotalNeed(contents) < n
    ensures Fits(n, contents - {k} - gone, k, v) <==> Fits(n, contents - gone, k, v)
    ensures (contents - {k} - gone)[k := v] == (contents - gone)[k := v]
  {
    DropTwice(contents, k, v, gone);
    TotalNeedSubset(contents, gone);
    TotalNeedLess(contents - gone, k);
  }

  lemma DropTwice(contents: map<Key, Value>, k: Key, v: Value, gone: set<Key>)
    ensures contents - {k} - gone == contents - gone - {k}
    ensures contents - gone - {k} - {k} == contents - gone - {k}
    ensures (contents - gone - {k})[k := v] == (contents - gone)[k := v]
  {
  }

  lemma {:induction false} TotalNeedSubset(contents: map<Key, Value>, gone: set<Key>)
    ensures TotalNeed(contents - gone) <= TotalNeed(contents)
    decreases gone
  {
    if k :| k in gone {
      TotalNeedSubset(contents, gone - {k});
      TotalNeedLess(contents - (gone - {k}), k);
      assert contents - (gone - {k}) - {k} == contents - gone;
    } else {
      assert contents - gone == contents;
    }
  }

  lemma EvictedSteps(n: nat, contents: map<Key, Value>, order: Order, k: Key, v: Value)
    requires order != [] && PutSpec(n, contents, k, v).0.Failure?
    ensures var after := PutSpec(n, contents, k, v).1 - {order[|order| - 1]};
            var rest := order[..|order| - 1];
            forall i | 0 <= i < |order| ::
              && (Fits(n, Evicted(after, rest, i), k, v) <==> Fits(n, Evicted(contents, order, i), k, v))
              && Evicted(after, rest, i)[k := v] == Evicted(contents, order, i)[k := v]
              && Evicted(after, rest, i).Keys <= Evicted(contents, order, i).Keys
  {
    var after := PutSpec(n, contents, k, v).1 - {order[|order| - 1]};
    var rest := order[..|order| - 1];
    forall i | 0 <= i < |order|
      ensures Fits(n, Evicted(after, rest, i), k, v) <==> Fits(n, Evicted(contents, order, i), k, v)
      ensures Evicted(after, rest, i)[k := v] == Evicted(contents, order, i)[k := v]
      ensures Evicted(after, rest, i).Keys <= Evicted(contents, order, i).Keys
    {
      EvictedStep(n, contents, order, k, v, i);
    }
  }

  /** What the wrapper decides, for any table and list: if a suffix of the list can make room, it evicts the shortest
      such suffix, and no put before fitted; otherwise it gives up with the list used up. */
  lemma {:induction false} EvictsShortestSuffix(n: nat, contents: map<Key, Value>, order: Order, k: Key, v: Value)
    returns (j: nat)
    requires 0 < n
    ensures j <= |order|
    ensures forall i | j < i <= |order| :: !Fits(n, Evicted(contents, order, i), k, v)
    ensures Fits(n, Evicted(contents, order, j), k, v) ==>
              Evict(n, contents, order, k, v) ==
              (Ok, Evicted(contents, order, j)[k := v], SimpleLru.Visited(order[..j], k))
    ensures !Fits(n, Evicted(contents, order, j), k, v) ==>
              && j == 0 && Evict(n, contents, order, k, v).0 == InvalidParams && Evict(n, contents, order, k, v).2 == []
              && Evict(n, contents, order, k, v).1.Keys <= Evicted(contents, order, 0).Keys
    decreases |order|
  {
    var (outcome, after) := PutSpec(n, contents, k, v);
    assert order[|order|..] == [] && Evicted(contents, order, |order|) == contents;
    j := |order|;
    if outcome.Success? {
      assert order[..|order|] == order;
    } else if order != [] {
      var last, rest := order[|order| - 1], order[..|order| - 1];
      j := EvictsShortestSuffix(n, after - {last}, rest, k, v);
      EvictedSteps(n, contents, order, k, v);
      assert rest[..j] == order[..j];
    }
  }

  lemma EvictedStep(n: nat, contents: map<Key, Value>, order: Order, k: Key, v: Value, i: nat)
    requires i < |order| && PutSpec(n, contents, k, v).0.Failure?
    ensures var after := PutSpec(n, contents, k, v).1 - {order[|order| - 1]};
            var rest := order[..|order| - 1];
            && (Fits(n, Evicted(after, rest, i), k, v) <==> Fits(n, Evicted(contents, order, i), k, v))
            && Evicted(after, rest, i)[k := v] == Evicted(contents, order, i)[k := v]
            && Evicted(after, rest, i).Keys <= Evicted(contents, order, i).Keys
  {
    var last, rest := order[|order| - 1], order[..|order| - 1];
    var after := PutSpec(n, contents, k, v).1;
    var gone := set q | q in order[i..];
    assert order[i..] == rest[i..] + [last];
    assert Evicted(after - {last}, rest, i) == after - gone;
    if TotalNeed(contents) < n {
      assert after - gone == contents - {k} - gone;
      FitsWithout(n, contents, k, v, gone);
    }
  }

  /** When the list names every stored key, the wrapper succeeds exactly for values that an empty table could take;
      otherwise it fails with everything evicted. */
  lemma EvictSucceedsIff(n: nat, contents: map<Key, Value>, order: Order, k: Key, v: Value)
    requires 0 < n && Covers(order, contents)
    ensures Evict(n, contents, order, k, v).0 == if Need(|v|) <= n then Ok else InvalidParams
    ensures Need(|v|) > n ==> Evict(n, contents, order, k, v).1 == map[] && Evict(n, contents, order, k, v).2 == []
  {
    var j := EvictsShortestSuffix(n, contents, order, k, v);
    forall q | q in contents ensures q in order {
      assert Listed(order, q);
    }
    assert order[0..] == order && Evicted(contents, order, 0) == map[];
    TotalNeedLess(Evicted(contents, order, j), k);
    var none: map<Key, Value> := map[];
    assert none - {k} == none;
  }

  /** The list goes on naming every stored key, and names each once. */
  lemma {:induction false} EvictKeepsCover(n: nat, contents: map<Key, Value>, order: Order, k: Key, v: Value)
    requires Covers(order, contents) && SimpleLru.Distinct(order)
    ensures Covers(Evict(n, contents, order, k, v).2, Evict(n, contents, order, k, v).1)
    ensures SimpleLru.Distinct(Evict(n, contents, order, k, v).2)
    decreases |order|
  {
    var (outcome, after) := PutSpec(n, contents, k, v);
    if outcome.Success? {
      CoversPut(n, order, contents, k, v);
      VisitCovers(order, after, k);
      SimpleLru.VisitedMeaning(order, k);
    } else if order != [] {
      var last, rest := order[|order| - 1], order[..|order| - 1];
      forall q | q in after ensures Listed(order, q) {
        assert Listed(order, q);
      }
      CoverShrinks(order, after);
      EvictKeepsCover(n, after - {last}, rest, k, v);
    }
  }

  /** Storing puts the value under its key, and what else is left is as it was. */
  lemma {:induction false} StoredMeaning(evicting: bool, n: nat, contents: map<Key, Value>, order: Order, k: Key, v: Value)
    requires 0 < n
    ensures var (r, after, _) := StoreSpec(evicting, n, contents, order, k, v);
            && (r.Ok? || r.InvalidParams? || r.NotEnoughSpace?)
            && (r.Ok? ==> k in after && after[k] == v)
            && forall q | q in after && q != k :: q in contents && after[q] == contents[q]
  {
    if evicting {
      EvictedMeaning(n, contents, order, k, v);
    }
  }

  lemma {:induction false} EvictedMeaning(n: nat, contents: map<Key, Value>, order: Order, k: Key, v: Value)
    ensures var (r, after, _) := Evict(n, contents, order, k, v);
            && (r.Ok? || r.InvalidParams?)
            && (r.Ok? ==> k in after && after[k] == v)
            && forall q | q in after && q != k :: q in contents && after[q] == contents[q]
    decreases |order|
  {
    var (outcome, after) := PutSpec(n, contents, k, v);
    if outcome.Failure? && order != [] {
      EvictedMeaning(n, after - {order[|order| - 1]}, order[..|order| - 1], k, v);
    }
  }

  /** Storing without eviction, said outright: the value goes in exactly if the table is not full and has room once
      the key's old value is gone; the key then heads the list and the others follow as they were. A refusal leaves
      the list alone, and costs a stored key its old value exactly if the table was not full. */
  ghost predicate StoredPlainly(n: nat, before: map<Key, Value>, order: Order, k: Key, v: Value,
                                r: ErrorCode, after: map<Key, Value>, order': Order) {
    && r == (if TotalNeed(before) < n && TotalNeed(before - {k}) + Need(|v|) <= n then Ok else NotEnoughSpace)
    && (r == Ok ==> after == before[k := v] && SimpleLru.BroughtToFront(order, k, order'))
    && (r == NotEnoughSpace ==>
          && order' == order && after == (if TotalNeed(before) < n then before - {k} else before)
          && (after == before <==> k !in before || TotalNeed(before) >= n))
  }

  lemma PlainStore(n: nat, before: map<Key, Value>, order: Order, k: Key, v: Value)
    requires SimpleLru.Distinct(order)
    ensures var (r, after, order') := StoreSpec(false, n, before, order, k, v);
            StoredPlainly(n, before, order, k, v, r, after, order')
  {
    SimpleLru.VisitedBrings(order, k);
    if PutSpec(n, before, k, v).0.Failure? {
      FailedPutLoses(n, before, k, v);
    }
  }
}
