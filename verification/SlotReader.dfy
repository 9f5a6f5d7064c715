/**
 Reading a value back from its chain of slots. A reader in another process takes no
 lock against the writer, so the table is a function of time here: `view(t)` is the
 table as the reader's t-th read finds it. A caller that owns the table passes a constant.
 */
module SlotReader {
  import opened Bytes
  import opened HashSlots

  type View = nat -> seq<Slot>

  datatype Fetched = Found(value: Value) | Missing

  ghost predicate Sized(view: View, n: nat) {
    forall t :: |view(t)| == n
  }

  ghost predicate LinkInRange(view: View, t: nat, i: int)
    requires 0 <= i < |view(t)|
  {
    -1 <= view(t)[i].link < |view(t)|
  }

  /** All that a reader beside an active writer may rely on: links are -1 or point into the table. */
  ghost predicate Bounded(view: View) {
    forall t, i {:trigger LinkInRange(view, t, i)} | 0 <= i < |view(t)| :: LinkInRange(view, t, i)
  }

  ghost predicate Unchanged(view: View, t: nat) {
    view(t) == view(0)
  }

  ghost predicate Quiet(view: View) {
    forall t {:trigger Unchanged(view, t)} :: Unchanged(view, t)
  }

  /** One read of one slot. */
  method ReadSlot(view: View, n: nat, t: nat, i: int) returns (x: Slot)
    requires Sized(view, n) && 0 <= i < n
    ensures x == view(t)[i]
    ensures Bounded(view) ==> -1 <= x.link < n
    ensures Quiet(view) ==> x == view(0)[i]
  {
    assert Bounded(view) ==> LinkInRange(view, t, i);
    assert Quiet(view) ==> Unchanged(view, t);
    x := view(t)[i];
  }

  /** The first `n` bytes of a slot's data area; the part beyond the bytes in use is padding. */
  function RawBytes(x: Slot, n: nat): (bytes: seq<byte>)
    ensures |bytes| == n
    ensures n == |x.value| ==> bytes == x.value
  {
    if n <= |x.value| then x.value[..n] else x.value + seq(n - |x.value|, _ => 0)
  }

  lemma PrefixValue(s: seq<Slot>, home: int, k: Key, c: seq<int>, j: nat)
    requires ChainOk(s, home, k, c) && j < |c|
    ensures forall p | 0 <= p < |c| :: 0 <= c[p] < |s|
    ensures var x := s[c[j]]; x.link == Next(c, j) && x.size == |x.value| > 0
    ensures ChainValue(s, c[..j + 1]) == ChainValue(s, c[..j]) + s[c[j]].value
    ensures |ChainValue(s, c[..j + 1])| <= |ChainValue(s, c)|
    decreases |c| - j
  {
    ChainOkIndices(s, home, k, c);
    assert LinkOk(s, home, k, c, j);
    assert c[..j + 1][..j] == c[..j];
    if j + 1 < |c| {
      PrefixValue(s, home, k, c, j + 1);
    } else {
      assert c[..j + 1] == c;
    }
  }

  /** Nobody writes, and the chain at `idx` carries `value`. */
  ghost predicate Intact(view: View, home: int, k: Key, c: seq<int>, idx: int, value: Value) {
    Quiet(view) && ChainOk(view(0), home, k, c) && c[0] == idx && Carries(view(0), c, value)
  }

  /** First pass: how long the value is, -1 when the links run on too long. `visits` counts the slots looked at. */
  method Measure(view: View, n: nat, idx: int, ghost home: int, ghost k: Key, ghost c: seq<int>, ghost value: Value)
    returns (valsize: int, clock: nat, visits: nat)
    requires Sized(view, n) && 0 <= idx < n
    requires Bounded(view) || Intact(view, home, k, c, idx, value)
    ensures visits <= n + 1 && valsize >= -1
    ensures Intact(view, home, k, c, idx, value) ==> valsize == |value|
  {
    ghost var intact := Intact(view, home, k, c, idx, value);
    if intact {
      ChainFits(view(0), home, k, c);
      ChainOkIndices(view(0), home, k, c);
    }
    var newidx, loop_count := idx, 0;
    valsize, clock, visits := 0, 0, 0;
    while newidx != -1
      invariant -1 <= newidx < n && 0 <= loop_count <= n && visits == loop_count && valsize >= 0
      invariant intact ==> 0 <= loop_count < |c| && newidx == c[loop_count]
      invariant intact ==> valsize == |ChainValue(view(0), c[..loop_count])|
      decreases n - loop_count
    {
      if intact {
        PrefixValue(view(0), home, k, c, loop_count);
      }
      visits := visits + 1;
      var x0 := ReadSlot(view, n, clock, newidx);
      valsize := valsize + x0.size;
      var x1 := ReadSlot(view, n, clock + 1, newidx);
      if x1.link == -1 {
        assert intact ==> c[..loop_count + 1] == c;
        return valsize, clock + 2, visits;
      }
      loop_count := loop_count + 1;
      if loop_count > n {
        return -1, clock + 2, visits;
      }
      var x2 := ReadSlot(view, n, clock + 2, newidx);
      newidx := x2.link;
      clock := clock + 3;
    }
  }

  /** One turn of the second pass over an intact chain: the next slot's bytes continue the value. */
  lemma GatherTurn(s: seq<Slot>, home: int, k: Key, c: seq<int>, j: nat)
    requires ChainOk(s, home, k, c) && j < |c|
    ensures 0 <= c[j] < |s| && forall p | 0 <= p < |c| :: 0 <= c[p] < |s|
    ensures var x := s[c[j]];
            && x.link == Next(c, j) && x.size == |x.value| > 0
            && ChainValue(s, c[..j + 1]) == ChainValue(s, c[..j]) + x.value
            && if j + 1 < |c| then |ChainValue(s, c[..j + 1])| < |ChainValue(s, c)| else c[..j + 1] == c
  {
    PrefixValue(s, home, k, c, j);
    if j + 1 < |c| {
      PrefixValue(s, home, k, c, j + 1);
    }
  }

  /** Copies a slot's bytes behind the first `vp` bytes of the value. */
  method Append(value: array<byte>, vp: nat, bytes: seq<byte>)
    requires vp + |bytes| <= value.Length
    modifies value
    ensures value[..vp + |bytes|] == old(value[..vp]) + bytes
  {
    forall i | 0 <= i < |bytes| {
      value[vp + i] := bytes[i];
    }
  }

  /** How far the second pass over an intact chain has come. */
  ghost predicate Gathering(s: seq<Slot>, home: int, k: Key, c: seq<int>, j: int, bytes: seq<byte>, size: nat) {
    && ChainOk(s, home, k, c) && 0 <= j < |c| && (forall p | 0 <= p < |c| :: 0 <= c[p] < |s|)
    && bytes == ChainValue(s, c[..j]) && |bytes| < size == |ChainValue(s, c)|
  }

  /** Copies one slot's bytes, unless they would run over the first pass's length; `last` is a link of -1. */
  method CopyTurn(view: View, n: nat, newidx: int, value: array<byte>, vp: nat, clock: nat, ghost home: int, ghost k: Key,
                  ghost c: seq<int>, ghost j: nat, ghost intact: bool)
    returns (fits: bool, next: nat, last: bool)
    requires Sized(view, n) && 0 <= newidx < n && vp <= value.Length
    requires intact ==> Quiet(view) && Gathering(view(0), home, k, c, j, value[..vp], value.Length) && newidx == c[j]
    modifies value
    ensures vp <= next <= value.Length
    ensures intact ==> fits && value[..next] == ChainValue(view(0), c[..j + 1]) && (last <==> j + 1 == |c|)
    ensures intact ==> if last then c[..j + 1] == c else next < value.Length
  {
    if intact {
      GatherTurn(view(0), home, k, c, j);
    }
    var x0 := ReadSlot(view, n, clock, newidx);
    var vsize := x0.size;
    if vp + vsize > value.Length {
      return false, vp, false;
    }
    var x1 := ReadSlot(view, n, clock + 1, newidx);
    Append(value, vp, RawBytes(x1, vsize));
    var x2 := ReadSlot(view, n, clock + 2, newidx);
    return true, vp + vsize, x2.link == -1;
  }

  /** Second pass: copies at most the `valsize` bytes that the first one counted. */
  method Collect(view: View, n: nat, idx: int, valsize: nat, start: nat, ghost home: int, ghost k: Key, ghost c: seq<int>,
                 ghost intact: bool)
    returns (r: Fetched, visits: nat)
    requires Sized(view, n) && 0 <= idx < n
    requires if intact then Quiet(view) && |c| <= n && c != [] && c[0] == idx && Gathering(view(0), home, k, c, 0, [], valsize)
             else Bounded(view)
    ensures visits <= n + 1 && (r.Found? ==> |r.value| == valsize)
    ensures intact ==> r == Found(ChainValue(view(0), c))
  {
    var value := new byte[valsize](_ => 0);
    var newidx, vp, loop_count, clock := idx, 0, 0, start;
    visits := 0;
    while vp < valsize && newidx != -1
      invariant -1 <= newidx < n && 0 <= vp <= valsize && 0 <= loop_count <= n && visits == loop_count
      invariant intact ==> Gathering(view(0), home, k, c, loop_count, value[..vp], valsize) && newidx == c[loop_count]
      decreases n - loop_count
    {
      visits := visits + 1;
      var fits, last;
      fits, vp, last := CopyTurn(view, n, newidx, value, vp, clock, home, k, c, loop_count, intact);
      if !fits {
        return Missing, visits;
      }
      if last {
        assert intact ==> value[..] == value[..vp];
        break;
      }
      loop_count := loop_count + 1;
      if loop_count > n {
        return Missing, visits;
      }
      if intact {
        GatherTurn(view(0), home, k, c, loop_count - 1);
      }
      var x3 := ReadSlot(view, n, clock + 3, newidx);
      newidx := x3.link;
      clock := clock + 4;
    }
    return Found(value[..]), visits;
  }

  /** Reads the value whose chain starts at `idx`: at most `n + 1` slots a pass whatever the writer does
      meanwhile, and exactly the stored bytes when it does nothing. */
  method GetData(view: View, n: nat, idx: int, ghost home: int, ghost k: Key, ghost c: seq<int>, ghost stored: Value)
    returns (r: Fetched, visits1: nat, visits2: nat)
    requires Sized(view, n) && 0 <= idx < n
    requires Bounded(view) || Intact(view, home, k, c, idx, stored)
    ensures visits1 <= n + 1 && visits2 <= n + 1
    ensures Intact(view, home, k, c, idx, stored) ==> r == Found(stored)
  {
    ghost var intact := Intact(view, home, k, c, idx, stored);
    if intact {
      ChainFits(view(0), home, k, c);
      ChainOkIndices(view(0), home, k, c);
      GatherStart(view(0), home, k, c);
    }
    var valsize, clock, visits := Measure(view, n, idx, home, k, c, stored);
    visits1, visits2 := visits, 0;
    if valsize == -1 {
      return Missing, visits1, visits2;
    }
    r, visits2 := Collect(view, n, idx, valsize, clock, home, k, c, intact);
  }

  lemma GatherStart(s: seq<Slot>, home: int, k: Key, c: seq<int>)
    requires ChainOk(s, home, k, c)
    ensures forall p | 0 <= p < |c| :: 0 <= c[p] < |s|
    ensures Gathering(s, home, k, c, 0, [], |ChainValue(s, c)|)
  {
    ChainOkIndices(s, home, k, c);
    GatherTurn(s, home, k, c, 0);
    assert c[..0] == [];
  }
}
