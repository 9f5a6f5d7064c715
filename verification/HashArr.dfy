/**
 The array hash table: a map from keys to byte strings in a fixed array of slots.
 The slots and the two counters are changed in place.
 */
module HashArr {
  import opened HashSlots
  import opened SlotReader

  datatype Errno = ENOBUFS | ENOENT | EFAULT

  datatype Outcome = Success | Failure(error: Errno)

  datatype Option<T> = None | Some(value: T)

  /** What a C conversion to `short` keeps. */
  function Short(n: int): int {
    (n + 0x8000) % 0x1_0000 - 0x8000
  }

  /** What `put` must do to a table of `n` slots that holds `contents`: the old value of
      the key, if any, is given up first, unless the table is full. */
  ghost function PutSpec(n: nat, contents: map<Key, Value>, k: Key, v: Value): (Outcome, map<Key, Value>) {
    if TotalNeed(contents) >= n then (Failure(ENOBUFS), contents)
    else if TotalNeed(contents - {k}) + Need(|v|) <= n then (Success, contents[k := v])
    else (Failure(ENOBUFS), contents - {k})
  }

  lemma PutSpecNew(n: nat, contents: map<Key, Value>, k: Key, v: Value)
    requires k !in contents && TotalNeed(contents) < n
    ensures PutSpec(n, contents, k, v) ==
            if TotalNeed(contents) + Need(|v|) <= n then (Success, contents[k := v]) else (Failure(ENOBUFS), contents)
  {
    assert contents - {k} == contents;
  }

  lemma PutSpecAgain(n: nat, contents: map<Key, Value>, k: Key, v: Value)
    requires k in contents && TotalNeed(contents) < n
    ensures PutSpec(n, contents, k, v) == PutSpec(n, contents - {k}, k, v)
    ensures (contents - {k}).Keys - {k} == contents.Keys - {k}
  {
    TotalNeedRemove(contents, k);
    assert contents - {k} - {k} == contents - {k};
    assert (contents - {k})[k := v] == contents[k := v];
  }

  /** A put that fails costs a stored key its old value exactly when the table was not full. */
  lemma FailedPutLoses(n: nat, contents: map<Key, Value>, k: Key, v: Value)
    requires PutSpec(n, contents, k, v).0.Failure?
    ensures PutSpec(n, contents, k, v).1 == contents <==> k !in contents || TotalNeed(contents) >= n
  {
    if k in contents {
      assert k !in contents - {k};
    } else {
      assert contents - {k} == contents;
    }
  }

  /** A table of two slots with one short value, which a value of three slots replaces by nothing. */
  lemma FailedPutLosesWitness(k: Key)
    ensures var small, large := [0], seq(371, _ => 0);
            PutSpec(2, map[k := small], k, large) == (Failure(ENOBUFS), map[])
  {
    var contents := map[k := [0]];
    TotalNeedRemove(contents, k);
    assert contents - {k} == map[];
  }

  class HashArr {
    const hashFn: Key -> nat
    const maxslots: nat
    const slots: array<Slot>
    var usedslots: int
    var num: int

    /** The home slot of each key, and the abstract state. */
    ghost const home: Homing
    ghost var chains: Chains
    ghost var own: Owners
    ghost var contents: map<Key, Value>

    /** Everything but the leaders' counts. */
    ghost predicate Core()
      reads this, slots
    {
      CoreOf(slots[..], usedslots, num)
    }

    ghost predicate CoreOf(s: seq<Slot>, used: int, heads: int)
      reads this
    {
      && |s| == slots.Length == maxslots > 0
      && Structure(s, home, chains, own)
      && Holds(s, chains, contents)
      && (forall k | k in contents :: |k| <= KEYSIZE)
      && Counted(s, used, heads)
    }

    ghost predicate Valid()
      reads this, slots
    {
      && Core()
      && Homes(slots[..], home, contents.Keys)
      && forall k {:trigger Homed(k)} :: Homed(k)
    }

    ghost predicate Homed(k: Key)
      requires maxslots > 0
    {
      At(home, k) == hashFn(k) % maxslots
    }

    constructor (maxslots: nat, hashFn: Key -> nat)
      requires 0 < maxslots
      ensures Valid() && fresh(slots)
      ensures contents == map[] && usedslots == num == 0
      ensures this.maxslots == maxslots && this.hashFn == hashFn
    {
      this.maxslots := maxslots;
      this.hashFn := hashFn;
      slots := new Slot[maxslots](_ => EMPTY_SLOT);
      usedslots, num := 0, 0;
      home := imap k: Key :: hashFn(k) % maxslots;
      chains, own, contents := map[], map[], map[];
      new;
      EmptyTable(slots[..], home);
      assert forall k {:trigger Homed(k)} :: Homed(k);
    }

    // ------------------------------------------------------------ probing

    /** The next empty slot at or after `startidx`, around the end; -1 exactly when there is none. */
    method FindEmpty(startidx: nat) returns (r: int)
      requires slots.Length == maxslots
      ensures r != -1 ==> 0 <= r < maxslots && slots[r].count == 0
      ensures r == -1 <==> forall i | 0 <= i < maxslots :: slots[i].count != 0
    {
      if maxslots <= 0 {
        return -1;
      }
      var start := if startidx >= maxslots then 0 else startidx;
      var idx := start;
      ghost var wrapped := false;
      while true
        invariant 0 <= idx < maxslots
        invariant if wrapped then idx < start else start <= idx
        invariant forall i | 0 <= i < maxslots && Scanned(start, idx, wrapped, maxslots, i) :: slots[i].count != 0
        decreases if wrapped then start - idx else maxslots - idx + start
      {
        if slots[idx].count == 0 {
          return idx;
        }
        idx := idx + 1;
        if idx >= maxslots {
          idx, wrapped := 0, true;
        }
        if idx == start {
          break;
        }
      }
      return -1;
    }

    // ------------------------------------------------------------ slots

    method CopySlot(idx1: int, idx2: int) returns (ok: bool)
      requires 0 <= idx1 < slots.Length && 0 <= idx2 < slots.Length
      modifies `usedslots, slots
      ensures ok == (old(slots[idx1].count) == 0 && old(slots[idx2].count) != 0)
      ensures ok ==> slots[..] == old(slots[..])[idx1 := old(slots[idx2])] && usedslots == old(usedslots) + 1
      ensures !ok ==> slots[..] == old(slots[..]) && usedslots == old(usedslots)
    {
      if slots[idx1].count != 0 || slots[idx2].count == 0 {
        return false;
      }
      slots[idx1] := slots[idx2];
      usedslots := usedslots + 1;
      return true;
    }

    method RemoveSlot(idx: int) returns (ok: bool)
      requires 0 <= idx < slots.Length
      modifies `usedslots, slots
      ensures ok == (old(slots[idx].count) != 0)
      ensures ok ==> slots[..] == old(slots[..])[idx := old(slots[idx]).(count := 0)] && usedslots == old(usedslots) - 1
      ensures !ok ==> slots[..] == old(slots[..]) && usedslots == old(usedslots)
    {
      if slots[idx].count == 0 {
        return false;
      }
      slots[idx] := slots[idx].(count := 0);
      usedslots := usedslots - 1;
      return true;
    }

    /** Frees the chain `c` of key `k`, whose head is `head`. */
    method RemoveData(head: int, ghost k: Key, ghost c: seq<int>) returns (ok: bool)
      requires slots.Length == maxslots && 0 <= head < maxslots
      requires slots[head].count != 0 ==> ChainOk(slots[..], slots[head].hash, k, c) && c[0] == head
      modifies `usedslots, `num, slots
      ensures ok == (old(slots[head].count) != 0)
      ensures !ok ==> slots[..] == old(slots[..]) && usedslots == old(usedslots) && num == old(num)
      ensures ok ==> Cleared(old(slots[..]), c, slots[..]) && usedslots == old(usedslots) - |c| && num == old(num) - 1
    {
      var idx := head;
      var loop_count := 0;
      if slots[idx].count == 0 {
        return false;
      }
      ghost var s := slots[..];
      ChainOkIndices(s, s[head].hash, k, c);
      ChainFits(s, s[head].hash, k, c);
      while true
        invariant 0 <= loop_count < |c| && idx == c[loop_count]
        invariant usedslots == old(usedslots) - loop_count && num == old(num)
        invariant Cleared(s, c[..loop_count], slots[..])
        decreases |c| - loop_count
      {
        ghost var before := slots[..];
        DistinctPrefix(c, loop_count);
        var link := slots[idx].link;
        var _ := RemoveSlot(idx);
        ClearedStep(s, c, loop_count, before, slots[..]);
        if link == -1 {
          assert c[..loop_count + 1] == c;
          break;
        }
        idx := link;
        loop_count := loop_count + 1;
        if loop_count > maxslots {
          break;
        }
      }
      num := num - 1;
      return true;
    }

    /** Ghost half of freeing the chain of `k` in a table whose slots were `s`. */
    ghost method Forget(s: seq<Slot>, k: Key)
      requires k in chains && CoreOf(s, Tally(s, false), Tally(s, true))
      requires Cleared(s, chains[k], slots[..])
      requires usedslots == Tally(s, false) - |chains[k]| && num == Tally(s, true) - 1
      modifies `chains, `own, `contents
      ensures Core()
      ensures contents == old(contents) - {k} && chains == old(chains) - {k}
      ensures own == old(own) - (set i | i in old(chains)[k])
    {
      DropChain(s, home, chains, own, k, slots[..]);
      DropHolds(s, chains, k, slots[..], contents);
      KeyChainOk(s, home, chains, own, k);
      assert chains[k][..|chains[k]|] == chains[k];
      ClearedTally(s, At(home, k), k, chains[k], |chains[k]|, slots[..]);
      own := own - (set i | i in chains[k]);
      chains := chains - {k};
      contents := contents - {k};
    }

    // ------------------------------------------------------------ storing

    /** Takes the next empty slot as a continuation block behind `newidx`. */
    method LinkEmpty(newidx: int) returns (tmpidx: int)
      requires slots.Length == maxslots && 0 <= newidx < maxslots && slots[newidx].count != 0
      modifies slots
      ensures tmpidx < 0 <==> forall i | 0 <= i < maxslots :: old(slots[i].count) != 0
      ensures tmpidx < 0 ==> slots[..] == old(slots[..])
      ensures tmpidx >= 0 ==>
                && tmpidx < maxslots && old(slots[tmpidx].count) == 0
                && Linked(old(slots[..]), newidx, tmpidx, Slot(-2, newidx, 0, -1, [], []), slots[..])
    {
      tmpidx := FindEmpty(newidx + 1);
      if tmpidx >= 0 {
        slots[tmpidx] := EMPTY_SLOT;
        slots[tmpidx] := slots[tmpidx].(count := -2, hash := newidx, link := -1, size := 0);
        slots[newidx] := slots[newidx].(link := tmpidx);
      }
    }

    /** Copies as much of the value as slot `newidx` can take. */
    method StoreChunk(newidx: int, value: Value, savesize: nat) returns (copysize: nat)
      requires slots.Length == maxslots && 0 <= newidx < maxslots && savesize < |value|
      modifies `num, `usedslots, slots
      ensures var room := if old(slots[newidx].count) == -2 then 242 else 128;
              copysize == if |value| - savesize > room then room else |value| - savesize
      ensures slots[..] == old(slots[..])[newidx := old(slots[newidx]).(value := value[savesize..savesize + copysize],
                                                                                     size := copysize)]
      ensures num == old(num) + if old(slots[newidx].count) == -2 then 0 else 1
      ensures usedslots == old(usedslots) + 1
    {
      copysize := |value| - savesize;
      if slots[newidx].count == -2 {
        if copysize > EXTSIZE {
          copysize := EXTSIZE;
        }
        slots[newidx] := slots[newidx].(value := value[savesize..savesize + copysize]);
      } else {
        if copysize > VALUESIZE {
          copysize := VALUESIZE;
        }
        slots[newidx] := slots[newidx].(value := value[savesize..savesize + copysize]);
        num := num + 1;
      }
      slots[newidx] := slots[newidx].(size := copysize);
      usedslots := usedslots + 1;
    }

    /** One turn of the loop that stores a value: takes the next block, except for the first chunk, and fills it. */
    method PutChunk(newidx: int, value: Value, savesize: nat) returns (next: int, copysize: nat)
      requires slots.Length == maxslots && 0 <= newidx < maxslots && savesize < |value|
      requires slots[newidx].count != 0 && (savesize == 0 ==> slots[newidx].count != -2)
      modifies `num, `usedslots, slots
      ensures next < 0 <==> savesize > 0 && forall i | 0 <= i < maxslots :: old(slots[i].count) != 0
      ensures next < 0 ==> slots[..] == old(slots[..]) && num == old(num) && usedslots == old(usedslots)
      ensures next >= 0 ==>
                && Chunk(old(slots[..]), newidx, value, savesize, next, copysize, slots[..])
                && usedslots == old(usedslots) + 1 && num == old(num) + (if savesize == 0 then 1 else 0)
    {
      next, copysize := newidx, 0;
      if savesize > 0 {
        next := LinkEmpty(newidx);
        if next < 0 {
          return;
        }
      }
      copysize := StoreChunk(next, value, savesize);
    }

    /** The same turn, with what it means for the chain `c` under construction; on failure all is undone. */
    method ExtendValue(idx: int, newidx: int, key: Key, value: Value, savesize: nat, ghost s0: seq<Slot>, ghost x: Slot,
                       ghost c: seq<int>)
      returns (next: int, copysize: nat)
      requires |s0| == slots.Length == maxslots && savesize < |value|
      requires Structure(s0, home, chains, own) && HeadWritten(s0, At(home, key), key, idx, x)
      requires Laying(s0, own, At(home, key), key, idx, x, c, slots[..], value, savesize) && c[|c| - 1] == newidx
      requires Counted(if savesize == 0 then s0 else slots[..], usedslots, num)
      modifies `num, `usedslots, slots
      ensures Counted(slots[..], usedslots, num)
      ensures next < 0 ==> Spliced(s0, own, [], slots[..]) && Tally(s0, false) + Need(|value|) > maxslots
      ensures next >= 0 ==> copysize > 0 && Laying(s0, own, At(home, key), key, idx, x,
                                                   if savesize == 0 then c else c + [next], slots[..], value, savesize + copysize)
      ensures next >= 0 && savesize == 0 ==> next == newidx
    {
      ghost var s := slots[..];
      next, copysize := PutChunk(newidx, value, savesize);
      if next < 0 {
        LayStuck(s0, own, At(home, key), key, c, s, value, savesize);
        var _ := RemoveData(idx, key, c);
        UndoGrown(s0, At(home, key), own, key, c, s, value, savesize, slots[..]);
      } else {
        LayChunk(s0, home, chains, own, key, idx, x, c, s, value, savesize, next, copysize, slots[..]);
      }
    }

    /** Ghost half of storing: the chain `c` of a new key joins the table whose slots were `s0`. */
    ghost method Adopt(s0: seq<Slot>, k: Key, c: seq<int>, value: Value)
      requires CoreOf(s0, Tally(s0, false), Tally(s0, true)) && k !in chains && |k| <= KEYSIZE
      requires Grown(s0, own, At(home, k), k, c, slots[..], value, |value|)
      requires Counted(slots[..], usedslots, num)
      modifies `chains, `own, `contents
      ensures Core()
      ensures chains == old(chains)[k := c] && contents == old(contents)[k := value]
    {
      assert value[..|value|] == value;
      AdoptChain(s0, home, chains, own, k, c, slots[..]);
      AdoptHolds(s0, chains, own, contents, k, c, slots[..], value);
      own := own + Locs(k, c);
      chains := chains[k := c];
      contents := contents[k := value];
    }

    /** The loop that lays out a value from the head slot `idx` on; `s0` is the table before the head was written. */
    method StoreValue(idx: int, key: Key, value: Value, ghost s0: seq<Slot>, ghost x: Slot)
      returns (ok: bool, ghost c: seq<int>)
      requires |s0| == slots.Length == maxslots
      requires Structure(s0, home, chains, own) && HeadWritten(s0, At(home, key), key, idx, x)
      requires slots[..] == s0[idx := x] && Counted(s0, usedslots, num)
      modifies `num, `usedslots, slots
      ensures 0 < |value| ==> (ok <==> Tally(s0, false) + Need(|value|) <= maxslots)
      ensures 0 < |value| && ok ==> Grown(s0, own, At(home, key), key, c, slots[..], value, |value|) && c[0] == idx
      ensures ok ==> slots[idx].count == x.count
      ensures !ok ==> Spliced(s0, own, [], slots[..])
      ensures |value| == 0 ==> ok && slots[..] == s0[idx := x] && Counted(s0, usedslots, num)
      ensures Counted(slots[..], usedslots, num) <==> 0 < |value|
    {
      var newidx := idx;
      var savesize := 0;
      c := [idx];
      ghost var owners, h := own, At(home, key);
      ghost var s := slots[..];
      LayStart(s0, owners, h, key, idx, x, value);
      while savesize < |value|
        invariant s == slots[..] && Laying(s0, owners, h, key, idx, x, c, s, value, savesize) && c[|c| - 1] == newidx
        invariant Counted(if savesize == 0 then s0 else s, usedslots, num)
      {
        var next, copysize := ExtendValue(idx, newidx, key, value, savesize, s0, x, c);
        if next < 0 {
          return false, c;
        }
        c := if savesize == 0 then c else c + [next];
        newidx := next;
        savesize := savesize + copysize;
        s := slots[..];
      }
      LayEnd(s0, owners, h, key, idx, x, c, s, value, usedslots, num);
      return true, c;
    }

    /** Stores a new key from slot `idx` on. A value that does not fit leaves no trace; an empty one
        leaves a head that nothing counts. */
    method PutData(idx: int, hash: int, key: Key, value: Value, count: int) returns (r: Outcome)
      requires Core() && 0 <= idx < maxslots && hash == At(home, key)
      requires key !in chains && |key| <= KEYSIZE
      requires if idx == hash then count > 0 else count == -1
      modifies this, slots
      ensures Core() <==> r.Failure? || 0 < |value|
      ensures r == if old(slots[idx].count) != 0 then Failure(EFAULT)
                   else if |value| == 0 || old(usedslots) + Need(|value|) <= maxslots then Success
                   else Failure(ENOBUFS)
      ensures r.Failure? || |value| == 0 ==> chains == old(chains) && own == old(own) && contents == old(contents)
      ensures r.Success? && 0 < |value| ==>
                && contents == old(contents)[key := value] && key in chains && chains[key][0] == idx
                && chains == old(chains)[key := chains[key]]
      ensures r.Success? ==> slots[idx].count == count
      ensures r.Success? && |value| == 0 ==> Bare(old(slots[..]), hash, key, idx)
                                             && usedslots == old(usedslots) && num == old(num)
      ensures forall i | 0 <= i < maxslots && i in old(own) :: slots[i] == old(slots[i])
      ensures forall i | 0 <= i < maxslots && i !in old(own) && i != idx :: slots[i].count <= 0
    {
      if slots[idx].count != 0 {
        return Failure(EFAULT);
      }
      ghost var s0 := slots[..];
      assert idx in own ==> SlotAt(s0, home, chains, own, idx);
      slots[idx] := slots[idx].(count := count, hash := hash, key := key, link := -1);
      var ok, c := StoreValue(idx, key, value, s0, slots[idx]);
      if !ok {
        SplicedIndices(s0, own, [], slots[..]);
        SameOwned(s0, home, chains, own, contents, slots[..]);
        return Failure(ENOBUFS);
      }
      if 0 < |value| {
        ChainOkIndices(slots[..], hash, key, c);
        SplicedIndices(s0, own, c, slots[..]);
        Adopt(s0, key, c, value);
      }
      return Success;
    }

    /** The slots are `s` but for the bare head of `key` in slot `idx`. */
    ghost predicate Bare(s: seq<Slot>, hash: int, key: Key, idx: int)
      reads slots
    {
      && |s| == slots.Length && 0 <= idx < |s|
      && HeadWritten(s, hash, key, idx, slots[idx]) && slots[..] == s[idx := slots[idx]]
    }

    // ------------------------------------------------------------ looking up

    /** The head slot of `key`, -1 exactly when the key is not stored. */
    method GetIdx(key: Key, hash: int) returns (r: int)
      requires Valid() && hash == At(home, key)
      ensures r == if key in contents then chains[key][0] else -1
    {
      ghost var s, m, owners := slots[..], chains, own;
      assert Homed(key);
      if slots[hash].count > 0 {
        var idx, count := hash, 0;
        ghost var wrapped := false;
        SeekStart(home, m, hash, key, maxslots);
        while count < slots[hash].count
          invariant Seeking(home, m, hash, key, idx, wrapped, maxslots, count)
          decreases if wrapped then hash - idx else maxslots - idx + hash
        {
          ghost var hit, next, around := SeekStep(s, home, m, owners, hash, key, idx, wrapped, count);
          if slots[idx].hash == hash && (slots[idx].count > 0 || slots[idx].count == -1) {
            count := count + 1;
            if |key| == |slots[idx].key| {
              if |key| <= KEYSIZE {
                if key == slots[idx].key {
                  return idx;
                }
              } else {
                assert false;
              }
            }
          }
          idx := idx + 1;
          if idx >= maxslots {
            idx, wrapped := 0, true;
          }
          assert idx == next && wrapped == around;
          if idx == hash {
            return -1;
          }
        }
        SeekDone(s, home, m, owners, hash, key, idx, wrapped, count);
      }
      assert key in m ==> Led(s, home, key);
      return -1;
    }

    method Exist(key: Key) returns (found: bool)
      requires Valid()
      ensures found == (key in contents)
    {
      assert Homed(key);
      var hash := hashFn(key) % maxslots;
      var idx := GetIdx(key, hash);
      if key in contents {
        KeyHead(slots[..], home, chains, own, key);
      }
      return idx >= 0;
    }

    method Get(key: Key) returns (r: Fetched)
      requires Valid()
      ensures r == if key in contents then Found(contents[key]) else Missing
    {
      assert Homed(key);
      var hash := hashFn(key) % maxslots;
      var idx := GetIdx(key, hash);
      if key in contents {
        KeyHead(slots[..], home, chains, own, key);
      }
      if idx < 0 {
        return Missing;
      }
      r := GetAt(idx, key);
    }

    /** The value of the key whose head is `idx`, read with no writer about. */
    method GetAt(idx: int, ghost key: Key) returns (r: Fetched)
      requires Core() && key in contents && idx == chains[key][0] && 0 <= idx < maxslots
      ensures r == Found(contents[key])
    {
      var s := slots[..];
      KeyChainOk(s, home, chains, own, key);
      assert Spells(s, chains, contents, key);
      var fetched, _, _ := GetData(_ => s, maxslots, idx, At(home, key), key, chains[key], contents[key]);
      return fetched;
    }

    // ------------------------------------------------------------ removing

    /** Ghost half of moving position `j` of the chain of `k` to slot `y`. */
    ghost method Follow(s: seq<Slot>, k: Key, j: nat, y: int, count: int)
      requires CoreOf(s, Tally(s, false), Tally(s, true)) && k in chains && 0 <= y < |s| && s[y].count == 0
      requires Moved(s, chains[k], j, y, count, slots[..])
      requires if j > 0 then count == -2 else if y == At(home, k) then count > 0 else count == -1
      requires usedslots == Tally(s, false) && num == Tally(s, true)
      modifies `chains, `own
      ensures Core()
      ensures chains == old(chains)[k := old(chains)[k][j := y]]
    {
      ghost var c := chains[k];
      assert y in own ==> SlotAt(s, home, chains, own, y);
      ChainSlot(s, home, chains, own, k, j);
      ChainDistinct(chains, own, k);
      ghost var m', own' := chains[k := c[j := y]], (own - {c[j]})[y := Loc(k, j)];
      Relocate(s, home, chains, own, k, j, y, count, slots[..], m', own');
      RelocateHolds(s, chains, own, contents, k, j, y, count, slots[..]);
      MovedTally(s, c, j, y, count, slots[..]);
      chains, own := m', own';
    }

    /** The displaced key to promote when the leader `idx` goes: the next one round the table. */
    method FindDisplaced(idx: int, hash: int, ghost key: Key) returns (idx2: int)
      requires Valid() && key in chains && At(home, key) == hash && chains[key][0] == idx == hash
      requires 0 <= idx < maxslots && slots[idx].count > 1
      ensures 0 <= idx2 < maxslots && idx2 != idx && slots[idx2].count == -1 && slots[idx2].hash == hash
    {
      ghost var q := Displaced(slots[..], home, chains, own, key);
      ghost var there := chains[q][0];
      ghost var wrapped := false;
      idx2 := idx + 1;
      while true
        invariant 0 <= idx2 <= maxslots && if wrapped then idx2 <= idx else idx < idx2
        invariant !Scanned(idx + 1, idx2, wrapped, maxslots, there)
        decreases if wrapped then idx - idx2 else maxslots - idx2 + 1 + idx
      {
        if idx2 >= maxslots {
          idx2, wrapped := 0, true;
        }
        if idx2 == idx {
          assert false;
        }
        if slots[idx2].count == -1 && slots[idx2].hash == hash {
          break;
        }
        idx2 := idx2 + 1;
      }
    }

    /** Copies the head `idx2` to the empty slot `idx` under a new count and repairs the next slot's back link. */
    method MoveHead(idx: int, idx2: int, count: int)
      requires slots.Length == maxslots && 0 <= idx < maxslots && 0 <= idx2 < maxslots && idx != idx2
      requires slots[idx].count == 0 && slots[idx2].count != 0 && count != 0
      requires -1 <= slots[idx2].link < maxslots && slots[idx2].link != idx && slots[idx2].link != idx2
      modifies `usedslots, slots
      ensures usedslots == old(usedslots)
      ensures var s := old(slots[..]);
              var x := s[idx2];
              var t := s[idx := x.(count := count)][idx2 := x.(count := 0)];
              slots[..] == if x.link != -1 then t[x.link := t[x.link].(hash := idx)] else t
    {
      var _ := CopySlot(idx, idx2);
      var _ := RemoveSlot(idx2);
      slots[idx] := slots[idx].(count := count);
      if slots[idx].link != -1 {
        slots[slots[idx].link] := slots[slots[idx].link].(hash := idx);
      }
    }

    /** Moves the displaced head `idx2` into the empty home slot `idx`. */
    method Promote(idx: int, idx2: int, count: int, ghost k: Key)
      requires Core() && 0 <= idx < maxslots && slots[idx].count == 0 && count > 0
      requires k in chains && idx == At(home, k) && idx2 == chains[k][0] && 0 <= idx2 < maxslots && slots[idx2].count == -1
      modifies this, slots
      ensures Core() && contents == old(contents)
      ensures Moved(old(slots[..]), old(chains)[k], 0, idx, count, slots[..])
    {
      ghost var s, c := slots[..], chains[k];
      KeyChainOk(s, home, chains, own, k);
      ChainOkIndices(s, idx, k, c);
      DistinctAt(c, 0);
      MoveHead(idx, idx2, count);
      HeadMoved(s, idx, k, c, idx, count, slots[..]);
      Follow(s, k, 0, idx, count);
    }

    /** Frees all slots of a stored key. */
    method FreeKey(idx: int, ghost key: Key)
      requires Core() && key in chains && chains[key][0] == idx && 0 <= idx < maxslots
      modifies this, slots
      ensures Core() && contents == old(contents) - {key} && chains == old(chains) - {key}
      ensures Cleared(old(slots[..]), old(chains)[key], slots[..])
    {
      ghost var s, c := slots[..], chains[key];
      KeyHead(s, home, chains, own, key);
      KeyChainOk(s, home, chains, own, key);
      var _ := RemoveData(idx, key, c);
      Forget(s, key);
    }

    method Remove(key: Key) returns (r: Outcome)
      requires Valid()
      modifies this, slots
      ensures Valid()
      ensures r == if key in old(contents) then Success else Failure(ENOENT)
      ensures contents == old(contents) - {key}
    {
      assert Homed(key);
      var hash := hashFn(key) % maxslots;
      var idx := GetIdx(key, hash);
      if key in contents {
        KeyHead(slots[..], home, chains, own, key);
      }
      if idx < 0 {
        assert contents == contents - {key};
        return Failure(ENOENT);
      }
      ghost var s, c := slots[..], chains[key];
      KeyChainOk(s, home, chains, own, key);
      if slots[idx].count == 1 {
        FreeKey(idx, key);
        HomesDropLast(s, home, old(contents).Keys, key, c, slots[..]);
      } else if slots[idx].count > 1 {
        RemoveLeader(idx, hash, key);
      } else if slots[idx].count == -1 {
        RemoveDisplaced(idx, key);
      } else {
        assert false;
      }
      return Success;
    }

    method RemoveLeader(idx: int, hash: int, ghost key: Key)
      requires Valid() && key in chains && At(home, key) == hash && chains[key][0] == idx == hash
      requires 0 <= idx < maxslots && slots[idx].count > 1
      modifies this, slots
      ensures Valid() && contents == old(contents) - {key}
    {
      ghost var s, c := slots[..], chains[key];
      var idx2 := FindDisplaced(idx, hash, key);
      KeyHead(s, home, chains, own, key);
      HeadOf(s, home, chains, own, idx2);
      ghost var q := own[idx2].key;
      KeyChainOk(s, home, chains, own, key);
      ChainsDisjoint(chains, own, key, q);
      var backupcount := slots[idx].count;
      FreeKey(idx, key);
      ghost var s1, d := slots[..], chains[q];
      Promote(idx, idx2, backupcount - 1, q);
      HomesPromote(s, home, old(contents).Keys, key, c, s1, d, slots[..]);
    }

    method RemoveDisplaced(idx: int, ghost key: Key)
      requires Valid() && key in chains && chains[key][0] == idx && 0 <= idx < maxslots && slots[idx].count == -1
      modifies this, slots
      ensures Valid() && contents == old(contents) - {key}
    {
      ghost var s, c := slots[..], chains[key];
      KeyHead(s, home, chains, own, key);
      KeyChainOk(s, home, chains, own, key);
      assert Led(s, home, key);
      HeadOf(s, home, chains, own, At(home, key));
      KeyHead(s, home, chains, own, own[At(home, key)].key);
      Shared(s, home, contents.Keys, key, own[At(home, key)].key);
      if slots[slots[idx].hash].count <= 1 {
        assert false;
      }
      var h := slots[idx].hash;
      Recount(s, home, chains, own, contents, h, s[h].count - 1);
      slots[h] := slots[h].(count := slots[h].count - 1);
      FreeKey(idx, key);
      HomesDropDisplaced(s, home, old(contents).Keys, key, c, slots[..]);
    }

    // ------------------------------------------------------------ putting

    /** Moves whatever displaced head or continuation block sits in slot `hash` to the empty slot `idx`. */
    method MoveSlot(idx: int, hash: int)
      requires slots.Length == maxslots && 0 <= idx < maxslots && 0 <= hash < maxslots && idx != hash
      requires slots[idx].count == 0 && slots[hash].count < 0
      requires var x := slots[hash]; && -1 <= x.link < maxslots && x.link != idx && x.link != hash
                                     && (x.count == -2 ==> 0 <= x.hash < maxslots && x.hash != idx && x.hash != hash)
      modifies `usedslots, slots
      ensures usedslots == old(usedslots)
      ensures var s := old(slots[..]);
              var x := s[hash];
              var t := s[idx := x][hash := x.(count := 0)];
              var t1 := if x.count == -2 then t[x.hash := t[x.hash].(link := idx)] else t;
              slots[..] == if x.count >= -2 && x.link != -1 then t1[x.link := t1[x.link].(hash := idx)] else t1
    {
      var _ := CopySlot(idx, hash);
      var _ := RemoveSlot(hash);
      if slots[idx].count == -2 {
        slots[slots[idx].hash] := slots[slots[idx].hash].(link := idx);
        if slots[idx].link != -1 {
          slots[slots[idx].link] := slots[slots[idx].link].(hash := idx);
        }
      } else if slots[idx].count == -1 {
        if slots[idx].link != -1 {
          slots[slots[idx].link] := slots[slots[idx].link].(hash := idx);
        }
      }
    }

    /** The owner of slot `hash` goes on with slot `idx` in its place. */
    method Transfer(idx: int, hash: int, ghost k: Key, ghost j: nat)
      requires Core() && 0 <= hash < maxslots && slots[hash].count < 0 && hash in own && own[hash] == Loc(k, j)
      requires 0 <= idx < maxslots && slots[idx].count == 0 && Led(slots[..], home, k)
      modifies this, slots
      ensures Core() && contents == old(contents) && usedslots == old(usedslots)
      ensures k in old(chains) && j < |old(chains)[k]| && old(chains)[k][j] == hash
      ensures Moved(old(slots[..]), old(chains)[k], j, idx, old(slots[hash].count), slots[..])
    {
      ghost var s := slots[..];
      Movable(s, home, chains, own, hash, idx);
      MoveSlot(idx, hash);
      SlotMoved(s, At(home, k), k, chains[k], j, idx, slots[..]);
      Follow(s, k, j, idx, s[hash].count);
    }

    /** Clears the home slot `hash` of somebody else's slot, which moves to the empty slot `idx`. */
    method MoveAside(idx: int, hash: int)
      requires Valid() && 0 <= hash < maxslots && slots[hash].count < 0
      requires 0 <= idx < maxslots && slots[idx].count == 0
      modifies this, slots
      ensures Valid() && contents == old(contents) && slots[hash].count == 0
      ensures usedslots == old(usedslots)
    {
      ghost var s := slots[..];
      Movable(s, home, chains, own, hash, idx);
      assert Led(s, home, own[hash].key);
      Transfer(idx, hash, own[hash].key, own[hash].pos);
      HomesFrame(s, home, contents.Keys, slots[..]);
    }

    /** The table is sound but for the bare head of `key` in slot `at`, which neither counter knows. */
    ghost predicate Uncounted(key: Key, at: int)
      reads this, slots
    {
      && slots.Length == maxslots && 0 <= at < maxslots
      && CoreOf(slots[..][at := EMPTY_SLOT], usedslots, num)
      && Bare(slots[..][at := EMPTY_SLOT], At(home, key), key, at)
    }

    lemma BareIsUncounted(s: seq<Slot>, key: Key, at: int)
      requires CoreOf(s, usedslots, num) && Bare(s, At(home, key), key, at)
      ensures Uncounted(key, at)
    {
      EmptySlotBlank(s, home, chains, own, contents, at, EMPTY_SLOT);
      assert slots[..][at := EMPTY_SLOT] == s[at := EMPTY_SLOT];
    }

    lemma UncountedMiscounts(key: Key, at: int)
      requires Uncounted(key, at)
      ensures Counted(slots[..], usedslots + 1, num + 1) && !Counted(slots[..], usedslots, num)
    {
      var s0 := slots[..][at := EMPTY_SLOT];
      EmptyValueMiscounts(s0, At(home, key), key, at, slots[at], usedslots, num);
      assert s0[at := slots[at]] == slots[..];
    }

    /** What putting `value` under `key` comes to in a table that held `before`. */
    ghost predicate PutDone(before: map<Key, Value>, key: Key, value: Value, r: Outcome)
      reads this, slots
    {
      if 0 < |value| || TotalNeed(before) >= maxslots then
        Valid() && (r, contents) == PutSpec(maxslots, before, key, value)
      else
        r == Success && contents == before - {key} && exists at :: Uncounted(key, at)
    }

    /** Stores a new key as the leader of its empty home slot. */
    method PutLeader(hash: int, key: Key, value: Value) returns (r: Outcome)
      requires Valid() && hash == At(home, key) && 0 <= hash < maxslots && slots[hash].count == 0
      requires key !in contents && |key| <= KEYSIZE
      modifies this, slots
      ensures 0 < |value| ==>
                && Valid() && r == (if old(usedslots) + Need(|value|) <= maxslots then Success else Failure(ENOBUFS))
                && contents == if r.Success? then old(contents)[key := value] else old(contents)
      ensures |value| == 0 ==> r == Success && contents == old(contents) && Uncounted(key, hash)
    {
      ghost var s := slots[..];
      assert forall i | 0 <= i < maxslots && i !in own :: s[i].count == 0;
      r := PutData(hash, hash, key, value, 1);
      if |value| == 0 {
        BareIsUncounted(s, key, hash);
      } else if r.Success? {
        HomesAdd(s, home, old(contents).Keys, key, slots[..]);
        assert contents.Keys == old(contents).Keys + {key};
      } else {
        HomesFrame(s, home, contents.Keys, slots[..]);
      }
    }

    /** Stores a new key beside the leader of its home slot. */
    method PutDisplaced(hash: int, key: Key, value: Value) returns (r: Outcome)
      requires Valid() && hash == At(home, key) && 0 <= hash < maxslots && slots[hash].count > 0
      requires usedslots < maxslots && slots[hash].count < 0x7FFF
      requires key !in contents && |key| <= KEYSIZE
      modifies this, slots
      ensures 0 < |value| ==>
                && Valid() && r == (if old(usedslots) + Need(|value|) <= maxslots then Success else Failure(ENOBUFS))
                && contents == if r.Success? then old(contents)[key := value] else old(contents)
      ensures |value| == 0 ==> r == Success && contents == old(contents) && exists at :: Uncounted(key, at)
    {
      TallyFull(slots[..]);
      var idx := FindEmpty(hash);
      if idx < 0 {
        assert false;
      }
      ghost var s := slots[..];
      HeadOf(s, home, chains, own, hash);
      r := PutData(idx, hash, key, value, -1);
      if r.Failure? {
        HomesFrame(s, home, contents.Keys, slots[..]);
        return;
      }
      RaiseLeader(hash, idx, s, key, old(contents), 0 < |value|);
    }

    /** The leader of `hash` counts the key that has just joined: one with a value, or the bare head in slot `idx`. */
    method RaiseLeader(hash: int, ghost idx: int, ghost s: seq<Slot>, ghost key: Key, ghost before: map<Key, Value>,
                       ghost valued: bool)
      requires slots.Length == maxslots == |s| && hash == At(home, key) && 0 <= hash < maxslots
      requires 0 < s[hash].count < 0x7FFF && slots[hash].count == s[hash].count
      requires valued ==>
                 && Core() && Homes(s, home, before.Keys) && (forall k {:trigger Homed(k)} :: Homed(k))
                 && key !in before && contents.Keys == before.Keys + {key}
                 && forall i | 0 <= i < maxslots && (s[i].count > 0 || slots[i].count > 0) :: slots[i].count == s[i].count
      requires !valued ==> CoreOf(s, usedslots, num) && Bare(s, hash, key, idx)
      modifies slots
      ensures if valued then Valid() else Uncounted(key, idx)
    {
      ghost var s1 := slots[..];
      slots[hash] := slots[hash].(count := Short(slots[hash].count + 1));
      if valued {
        CountUp(hash, s, s1, key, before);
      } else {
        BareCountUp(idx, hash, s, s1, key);
      }
    }

    /** The leader of `hash` counts one key more, `key`, which has just joined the table whose slots were `s`. */
    lemma CountUp(hash: int, s: seq<Slot>, s1: seq<Slot>, key: Key, before: map<Key, Value>)
      requires CoreOf(s1, usedslots, num)
      requires |s| == maxslots && Homes(s, home, before.Keys) && (forall k {:trigger Homed(k)} :: Homed(k))
      requires key !in before && contents.Keys == before.Keys + {key}
      requires hash == At(home, key) && 0 <= hash < maxslots && 0 < s[hash].count < 0x7FFF && s1[hash].count == s[hash].count
      requires forall i | 0 <= i < maxslots && (s[i].count > 0 || s1[i].count > 0) :: s1[i].count == s[i].count
      requires slots[..] == s1[hash := s1[hash].(count := s1[hash].count + 1)]
      ensures Valid()
    {
      Recount(s1, home, chains, own, contents, hash, s1[hash].count + 1);
      HomesAdd(s, home, before.Keys, key, slots[..]);
    }

    /** The same when the key has joined as a bare head in slot `idx`. */
    lemma BareCountUp(idx: int, hash: int, s: seq<Slot>, s1: seq<Slot>, key: Key)
      requires CoreOf(s, usedslots, num) && hash == At(home, key) && 0 <= hash < maxslots && s[hash].count > 0
      requires 0 <= idx < maxslots && |s1| == |s| && s1 == s[idx := s1[idx]] && HeadWritten(s, hash, key, idx, s1[idx])
      requires slots[..] == s1[hash := s1[hash].(count := s1[hash].count + 1)]
      ensures Uncounted(key, idx)
    {
      Recount(s, home, chains, own, contents, hash, s[hash].count + 1);
      var t := s[hash := s[hash].(count := s[hash].count + 1)];
      EmptySlotBlank(t, home, chains, own, contents, idx, EMPTY_SLOT);
      assert slots[..][idx := EMPTY_SLOT] == t[idx := EMPTY_SLOT];
    }

    /** Fewer keys than a `short` can count share the home slot of `key`, not counting itself. */
    ghost predicate Countable(key: Key)
      reads this
    {
      |SameHome(home, contents.Keys - {key}, At(home, key))| < 0x7FFF
    }

    lemma CountableWithin(keys: set<Key>, key: Key)
      requires contents.Keys - {key} <= keys && |SameHome(home, keys, At(home, key))| < 0x7FFF
      ensures Countable(key)
    {
      SameHomeLess(home, contents.Keys - {key}, keys, At(home, key));
    }

    /** How a new key's put is a put. */
    lemma NewPutDone(before: map<Key, Value>, used: int, key: Key, value: Value, r: Outcome)
      requires key !in before && TotalNeed(before) == used < maxslots
      requires 0 < |value| ==>
                 && Valid() && r == (if used + Need(|value|) <= maxslots then Success else Failure(ENOBUFS))
                 && contents == if r.Success? then before[key := value] else before
      requires |value| == 0 ==> r == Success && contents == before && exists at :: Uncounted(key, at)
      ensures PutDone(before, key, value, r)
    {
      PutSpecNew(maxslots, before, key, value);
      assert before - {key} == before;
    }

    /** Removes the key and puts it anew. */
    method PutAgain(key: Key, value: Value) returns (r: Outcome)
      requires Valid() && |key| <= KEYSIZE && Countable(key) && key in contents && usedslots < maxslots
      modifies this, slots
      ensures PutDone(old(contents), key, value, r)
      decreases key in contents, 0
    {
      TallyIsNeed(slots[..], home, chains, own, contents);
      var removed := Remove(key);
      if removed.Failure? {
        assert false;
      }
      assert contents.Keys - {key} == old(contents).Keys - {key};
      r := Put(key, value);
      AgainDone(old(contents), key, value, r);
    }

    lemma AgainDone(before: map<Key, Value>, key: Key, value: Value, r: Outcome)
      requires key in before && TotalNeed(before) < maxslots && PutDone(before - {key}, key, value, r)
      ensures PutDone(before, key, value, r)
    {
      PutSpecAgain(maxslots, before, key, value);
      TotalNeedLess(before, key);
      assert before - {key} - {key} == before - {key};
    }

    /** A put into a home slot with a leader: the key is stored already, or joins it. */
    method PutBeside(hash: int, key: Key, value: Value) returns (r: Outcome)
      requires Valid() && |key| <= KEYSIZE && Countable(key) && usedslots < maxslots
      requires hash == At(home, key) && 0 <= hash < maxslots && slots[hash].count > 0
      modifies this, slots
      ensures PutDone(old(contents), key, value, r)
      decreases key in contents, 1
    {
      KnownIdx(key);
      var idx := GetIdx(key, hash);
      if idx >= 0 {
        r := PutAgain(key, value);
      } else {
        TallyIsNeed(slots[..], home, chains, own, contents);
        assert contents.Keys - {key} == contents.Keys && Leads(slots[..], home, contents.Keys, hash);
        r := PutDisplaced(hash, key, value);
        NewPutDone(old(contents), old(usedslots), key, value, r);
      }
    }

    /** A put into a home slot that somebody else's slot occupies. */
    method PutOver(hash: int, key: Key, value: Value) returns (r: Outcome)
      requires Valid() && |key| <= KEYSIZE && key !in contents && usedslots < maxslots
      requires hash == At(home, key) && 0 <= hash < maxslots && slots[hash].count < 0
      modifies this, slots
      ensures PutDone(old(contents), key, value, r)
    {
      TallyIsNeed(slots[..], home, chains, own, contents);
      TallyFull(slots[..]);
      var idx := FindEmpty(hash + 1);
      if idx < 0 {
        assert false;
      }
      MoveAside(idx, hash);
      r := PutLeader(hash, key, value);
      NewPutDone(old(contents), old(usedslots), key, value, r);
    }

    /** Stores a value under a key. The counters stay exact unless an empty value finds the table not full. */
    method Put(key: Key, value: Value) returns (r: Outcome)
      requires Valid() && |key| <= KEYSIZE && Countable(key)
      modifies this, slots
      ensures PutDone(old(contents), key, value, r)
      ensures Counted(slots[..], usedslots, num) <==> 0 < |value| || TotalNeed(old(contents)) >= maxslots
      decreases key in contents, 2
    {
      TallyIsNeed(slots[..], home, chains, own, contents);
      if usedslots >= maxslots {
        return Failure(ENOBUFS);
      }
      assert Homed(key) && (key in contents ==> Led(slots[..], home, key));
      var hash := hashFn(key) % maxslots;
      if slots[hash].count == 0 {
        r := PutLeader(hash, key, value);
        NewPutDone(old(contents), old(usedslots), key, value, r);
      } else if slots[hash].count > 0 {
        r := PutBeside(hash, key, value);
      } else {
        r := PutOver(hash, key, value);
      }
      if at :| Uncounted(key, at) && |value| == 0 {
        UncountedMiscounts(key, at);
      }
    }

    lemma KnownIdx(key: Key)
      requires Core()
      ensures key in contents ==> 0 < |chains[key]| && 0 <= chains[key][0] < maxslots
    {
      if key in contents {
        KeyHead(slots[..], home, chains, own, key);
      }
    }

    // ------------------------------------------------------------ the whole table

    method Size() returns (keys: int, max: int, used: int)
      requires Valid()
      ensures keys == |contents.Keys| && max == maxslots && used == TotalNeed(contents)
    {
      TallyIsNeed(slots[..], home, chains, own, contents);
      return num, maxslots, usedslots;
    }

    method Clear()
      requires Valid()
      modifies this, slots
      ensures Valid() && contents == map[] && usedslots == 0 && num == 0
    {
      TallyIsNeed(slots[..], home, chains, own, contents);
      TallyFull(slots[..]);
      if usedslots == 0 {
        return;
      }
      usedslots, num := 0, 0;
      forall i | 0 <= i < maxslots {
        slots[i] := EMPTY_SLOT;
      }
      EmptyTable(slots[..], home);
      chains, own, contents := map[], map[], map[];
    }

    /** What `GetNext` yields from the start of the table is its contents, each entry once. */
    lemma ListsAll()
      requires Valid()
      ensures var l := Listing(slots[..], contents, 0);
              && (forall p, q | 0 <= p < q < |l| :: l[p].0 != l[q].0)
              && (forall k, v :: (k, v) in l <==> k in contents && contents[k] == v)
    {
      ListingComplete(slots[..], home, chains, own, contents);
    }

    /** The next entry at or after position `idx`, in table order. */
    method GetNext(idx: nat) returns (entry: Option<(Key, Value)>, next: nat)
      requires Valid()
      ensures Listing(slots[..], contents, idx) == if entry.Some? then [entry.value] + Listing(slots[..], contents, next) else []
      ensures if entry.Some? then idx < next <= maxslots else next == if idx < maxslots then maxslots else idx
    {
      next := idx;
      while next < maxslots
        invariant idx <= next && (idx < maxslots ==> next <= maxslots) && (idx >= maxslots ==> next == idx)
        invariant Listing(slots[..], contents, idx) == Listing(slots[..], contents, next)
      {
        if slots[next].count == 0 || slots[next].count == -2 {
          next := next + 1;
          continue;
        }
        ghost var s := slots[..];
        assert next in own ==> SlotAt(s, home, chains, own, next);
        HeadOf(s, home, chains, own, next);
        var key := slots[next].key;
        var fetched := GetAt(next, key);
        if fetched.Missing? {
          assert false;
        }
        return Some((key, fetched.value)), next + 1;
      }
      return None, next;
    }
  }
}
