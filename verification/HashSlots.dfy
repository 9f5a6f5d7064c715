/**
 The slots of the array hash table as values: the invariant that ties a flat
 array of slots to a set of disjoint chains, one chain a key, and what each
 elementary edit of the array does to that invariant.
 */
module HashSlots {
  import opened Bytes

  type Key = seq<byte>
  type Value = seq<byte>

  const KEYSIZE: nat := 96
  const VALUESIZE: nat := 128
  const EXTSIZE: nat := 242

  /** A slot is empty (count 0), a leader (count > 0: how many keys share this home slot),
      a displaced head (-1), or a continuation block (-2, `hash` is then the previous slot).
      `value` holds the `size` bytes in use of whichever union member `count` selects. */
  datatype Slot = Slot(count: int, hash: int, size: nat, link: int, key: Key, value: Value)

  const EMPTY_SLOT := Slot(0, 0, 0, 0, [], [])

  /** Place of a slot: the key it belongs to and its position in that key's chain. */
  datatype Loc = Loc(key: Key, pos: nat)

  type Chains = map<Key, seq<int>>
  type Owners = map<int, Loc>

  /** The home slot of every key. */
  type Homing = imap<Key, nat>

  ghost function At(home: Homing, k: Key): nat {
    if k in home then home[k] else 0
  }

  /** Bytes of value that the slot at position `pos` of a chain can hold. */
  function Cap(pos: nat): nat {
    if pos == 0 then VALUESIZE else EXTSIZE
  }

  /** How many slots a value of `len` bytes occupies. */
  function Need(len: nat): nat {
    if len <= VALUESIZE then 1 else 1 + (len - VALUESIZE + EXTSIZE - 1) / EXTSIZE
  }

  predicate IsHead(x: Slot) {
    x.count > 0 || x.count == -1
  }

  /** The bytes held by the slots of a chain, in order. */
  ghost function ChainValue(s: seq<Slot>, c: seq<int>): Value
    requires forall j | 0 <= j < |c| :: 0 <= c[j] < |s|
  {
    if c == [] then [] else ChainValue(s, c[..|c| - 1]) + s[c[|c| - 1]].value
  }

  /** The number of used slots, or of heads among them. */
  ghost function Tally(s: seq<Slot>, heads: bool): nat {
    if s == [] then 0 else Tally(s[..|s| - 1], heads) + Weight(s[|s| - 1], heads)
  }

  function Weight(x: Slot, heads: bool): nat {
    if x.count != 0 && (heads ==> IsHead(x)) then 1 else 0
  }

  // ---------------------------------------------------------------- invariant

  /** The slot after position `j` of a chain, -1 at its end. */
  ghost function Next(c: seq<int>, j: nat): int
    requires j < |c|
  {
    if j + 1 < |c| then c[j + 1] else -1
  }

  ghost predicate SlotOk(x: Slot, home: int, k: Key, c: seq<int>, j: nat)
    requires j < |c|
  {
    && x.link == Next(c, j)
    && 0 < x.size == |x.value| <= Cap(j)
    && (j + 1 < |c| ==> x.size == Cap(j))
    && if j == 0
       then x.key == k && x.hash == home && (if c[0] == home then x.count > 0 else x.count == -1)
       else x.count == -2 && x.hash == c[j - 1]
  }

  ghost predicate Placed(m: Chains, own: Owners, k: Key, j: int)
    requires k in m && 0 <= j < |m[k]|
  {
    m[k][j] in own && own[m[k][j]] == Loc(k, j)
  }

  ghost predicate Owned(m: Chains, own: Owners, i: int)
    requires i in own
  {
    own[i].key in m && own[i].pos < |m[own[i].key]| && m[own[i].key][own[i].pos] == i
  }

  /** Chains and owners index each other: chains are nonempty, acyclic and disjoint. */
  ghost predicate Indexed(m: Chains, own: Owners) {
    && (forall k | k in m :: 0 < |m[k]|)
    && (forall k, j {:trigger Placed(m, own, k, j)} | k in m && 0 <= j < |m[k]| :: Placed(m, own, k, j))
    && (forall i {:trigger Owned(m, own, i)} | i in own :: Owned(m, own, i))
  }

  /** The slot at `i` looks as its place in its chain demands. */
  ghost predicate SlotAt(s: seq<Slot>, home: Homing, m: Chains, own: Owners, i: int)
    requires i in own
  {
    && Owned(m, own, i)
    && 0 <= i < |s|
    && SlotOk(s[i], At(home, own[i].key), own[i].key, m[own[i].key], own[i].pos)
  }

  /** The used slots are exactly the owned ones and each looks as its place demands. */
  ghost predicate Structure(s: seq<Slot>, home: Homing, m: Chains, own: Owners) {
    && Indexed(m, own)
    && (forall i | 0 <= i < |s| && i !in own :: s[i].count == 0)
    && (forall i {:trigger SlotAt(s, home, m, own, i)} | i in own :: SlotAt(s, home, m, own, i))
  }

  ghost function SameHome(home: Homing, keys: set<Key>, i: int): set<Key> {
    set k | k in keys && At(home, k) == i
  }

  ghost predicate Led(s: seq<Slot>, home: Homing, k: Key) {
    At(home, k) < |s| && s[At(home, k)].count > 0
  }

  ghost predicate Leads(s: seq<Slot>, home: Homing, keys: set<Key>, i: int)
    requires 0 <= i < |s|
  {
    s[i].count > 0 ==> s[i].count == |SameHome(home, keys, i)|
  }

  /** Each home slot with keys has a leader, and a leader counts the keys of its home slot. */
  ghost predicate Homes(s: seq<Slot>, home: Homing, keys: set<Key>) {
    && (forall k {:trigger Led(s, home, k)} | k in keys :: Led(s, home, k))
    && (forall i {:trigger Leads(s, home, keys, i)} | 0 <= i < |s| :: Leads(s, home, keys, i))
  }

  ghost predicate Carries(s: seq<Slot>, c: seq<int>, bytes: Value) {
    (forall j | 0 <= j < |c| :: 0 <= c[j] < |s|) && ChainValue(s, c) == bytes
  }

  ghost predicate Spells(s: seq<Slot>, m: Chains, contents: map<Key, Value>, k: Key)
    requires k in m && k in contents
  {
    Carries(s, m[k], contents[k])
  }

  /** The chain of every key spells out the value that `contents` gives it. */
  ghost predicate Holds(s: seq<Slot>, m: Chains, contents: map<Key, Value>) {
    && contents.Keys == m.Keys
    && (forall k {:trigger Spells(s, m, contents, k)} | k in m :: Spells(s, m, contents, k))
  }

  /** The exact counters: used slots, and heads. */
  ghost predicate Counted(s: seq<Slot>, used: int, heads: int) {
    used == Tally(s, false) && heads == Tally(s, true)
  }

  // ---------------------------------------------------------------- chains

  ghost predicate Differ(c: seq<int>, i: int, j: int)
    requires 0 <= i < |c| && 0 <= j < |c|
  {
    c[i] != c[j]
  }

  ghost predicate Distinct(c: seq<int>) {
    forall i, j {:trigger Differ(c, i, j)} | 0 <= i < j < |c| :: Differ(c, i, j)
  }

  lemma DistinctPrefix(c: seq<int>, n: nat)
    requires Distinct(c) && n <= |c|
    ensures Distinct(c[..n]) && (n < |c| ==> c[n] !in c[..n])
  {
    forall i, j | 0 <= i < j < n
      ensures Differ(c[..n], i, j)
    {
      assert Differ(c, i, j);
    }
    if n < |c| {
      forall i | 0 <= i < n
        ensures c[i] != c[n]
      {
        assert Differ(c, i, n);
      }
    }
  }

  lemma DistinctAt(c: seq<int>, j: nat)
    requires Distinct(c) && j < |c|
    ensures forall i | 0 <= i < |c| && i != j :: c[i] != c[j]
  {
    forall i | 0 <= i < |c| && i != j
      ensures c[i] != c[j]
    {
      assert if i < j then Differ(c, i, j) else Differ(c, j, i);
    }
  }

  ghost predicate LinkOk(s: seq<Slot>, home: int, k: Key, c: seq<int>, j: int) {
    0 <= j < |c| && 0 <= c[j] < |s| && SlotOk(s[c[j]], home, k, c, j)
  }

  /** `c` is a whole chain for key `k`, seen from its own slots. */
  ghost predicate ChainOk(s: seq<Slot>, home: int, k: Key, c: seq<int>) {
    && 0 < |c| && Distinct(c)
    && forall j {:trigger LinkOk(s, home, k, c, j)} | 0 <= j < |c| :: LinkOk(s, home, k, c, j)
  }

  lemma ChainOkIndices(s: seq<Slot>, home: int, k: Key, c: seq<int>)
    requires ChainOk(s, home, k, c)
    ensures forall j | 0 <= j < |c| :: 0 <= c[j] < |s| && s[c[j]].count != 0 && s[c[j]].link == Next(c, j)
    ensures forall j | 0 < j < |c| :: s[c[j]].count == -2
    ensures s[c[0]].hash == home && IsHead(s[c[0]])
  {
    assert LinkOk(s, home, k, c, 0);
    forall j | 0 <= j < |c|
      ensures 0 <= c[j] < |s| && s[c[j]].count != 0 && s[c[j]].link == Next(c, j) && (j > 0 ==> s[c[j]].count == -2)
    {
      assert LinkOk(s, home, k, c, j);
    }
  }

  ghost function Below(n: nat): (all: set<int>)
    ensures forall i :: i in all <==> 0 <= i < n
    ensures |all| == n
  {
    if n == 0 then {} else Below(n - 1) + {n - 1}
  }

  lemma {:induction false} DistinctSize(c: seq<int>)
    requires Distinct(c)
    ensures |set i | i in c| == |c|
  {
    if c != [] {
      var d := c[..|c| - 1];
      DistinctPrefix(c, |c| - 1);
      DistinctSize(d);
      assert (set i | i in c) == (set i | i in d) + {c[|c| - 1]};
    }
  }

  /** An acyclic chain is no longer than the table. */
  lemma ChainFits(s: seq<Slot>, home: int, k: Key, c: seq<int>)
    requires ChainOk(s, home, k, c)
    ensures |c| <= |s|
  {
    ChainOkIndices(s, home, k, c);
    DistinctSize(c);
    var cut := set i | i in c;
    var all := Below(|s|);
    assert cut <= all;
    assert |all - cut| == |all| - |cut|;
  }

  lemma ChainSlot(s: seq<Slot>, home: Homing, m: Chains, own: Owners, k: Key, j: nat)
    requires Structure(s, home, m, own) && k in m && j < |m[k]|
    ensures 0 <= m[k][j] < |s| && m[k][j] in own && own[m[k][j]] == Loc(k, j)
    ensures SlotOk(s[m[k][j]], At(home, k), k, m[k], j)
  {
    assert Placed(m, own, k, j);
    assert SlotAt(s, home, m, own, m[k][j]);
  }

  lemma ChainDistinct(m: Chains, own: Owners, k: Key)
    requires Indexed(m, own) && k in m
    ensures Distinct(m[k]) && forall j | 0 <= j < |m[k]| :: m[k][j] in own && own[m[k][j]] == Loc(k, j)
  {
    forall j | 0 <= j < |m[k]|
      ensures m[k][j] in own && own[m[k][j]] == Loc(k, j)
    {
      assert Placed(m, own, k, j);
    }
    forall i, j | 0 <= i < j < |m[k]|
      ensures Differ(m[k], i, j)
    {
      assert own[m[k][i]] != own[m[k][j]];
    }
  }

  /** Chains of different keys share no slot. */
  lemma ChainsDisjoint(m: Chains, own: Owners, k: Key, q: Key)
    requires Indexed(m, own) && k in m && q in m && k != q
    ensures forall i | i in m[q] :: i !in m[k]
  {
    ChainDistinct(m, own, k);
    ChainDistinct(m, own, q);
  }

  lemma KeyChainOk(s: seq<Slot>, home: Homing, m: Chains, own: Owners, k: Key)
    requires Structure(s, home, m, own) && k in m
    ensures ChainOk(s, At(home, k), k, m[k])
  {
    ChainDistinct(m, own, k);
    forall j | 0 <= j < |m[k]|
      ensures LinkOk(s, At(home, k), k, m[k], j)
    {
      ChainSlot(s, home, m, own, k, j);
    }
  }

  // ---------------------------------------------------------------- values

  lemma {:induction false} ChainValueFrame(s: seq<Slot>, c: seq<int>, s': seq<Slot>, c': seq<int>)
    requires |c| == |c'|
    requires forall j | 0 <= j < |c| :: 0 <= c[j] < |s| && 0 <= c'[j] < |s'| && s[c[j]].value == s'[c'[j]].value
    ensures ChainValue(s, c) == ChainValue(s', c')
  {
    if c != [] {
      ChainValueFrame(s, c[..|c| - 1], s', c'[..|c| - 1]);
    }
  }

  lemma ChainValueAppend(s: seq<Slot>, c: seq<int>, i: int)
    requires 0 <= i < |s| && forall j | 0 <= j < |c| :: 0 <= c[j] < |s|
    ensures ChainValue(s, c + [i]) == ChainValue(s, c) + s[i].value
  {
    assert (c + [i])[..|c|] == c;
  }

  ghost predicate SameValues(s: seq<Slot>, s': seq<Slot>, c: seq<int>) {
    forall p | 0 <= p < |c| :: 0 <= c[p] < |s| && 0 <= c[p] < |s'| && s[c[p]].value == s'[c[p]].value
  }

  /** Giving key `k` the chain `c` while the slots of all other keys keep their bytes. */
  lemma HoldsUpdate(s: seq<Slot>, m: Chains, contents: map<Key, Value>, s': seq<Slot>, k: Key, c: seq<int>, bytes: Value)
    requires Holds(s, m, contents)
    requires forall q | q in m && q != k :: SameValues(s, s', m[q])
    requires Carries(s', c, bytes)
    ensures Holds(s', m[k := c], contents[k := bytes])
  {
    var m', contents' := m[k := c], contents[k := bytes];
    forall q | q in m'
      ensures Spells(s', m', contents', q)
    {
      if q != k {
        assert Spells(s, m, contents, q) && SameValues(s, s', m[q]);
        ChainValueFrame(s, m[q], s', m[q]);
      }
    }
  }

  /** A chain prefix of full slots holds as many bytes as its slots have room for. */
  lemma {:induction false} FullPrefixLength(s: seq<Slot>, c: seq<int>)
    requires forall j | 0 <= j < |c| :: 0 <= c[j] < |s| && |s[c[j]].value| == Cap(j)
    ensures |ChainValue(s, c)| == if c == [] then 0 else VALUESIZE + EXTSIZE * (|c| - 1)
  {
    if c != [] {
      FullPrefixLength(s, c[..|c| - 1]);
    }
  }

  lemma NeedOfLength(len: nat, slots: nat)
    requires 0 < slots && 0 < len
    requires (if slots == 1 then 0 else VALUESIZE + EXTSIZE * (slots - 2)) < len <= VALUESIZE + EXTSIZE * (slots - 1)
    ensures Need(len) == slots
  {
  }

  /** Bytes left over behind full slots need a further slot. */
  /** The capacity of `n` slots for one value: 128 bytes in the first, 242 in each that follows. */
  lemma NeedExact(len: nat, n: nat)
    requires 1 <= n
    ensures Need(len) <= n <==> len <= 128 + 242 * (n - 1)
  {
  }

  lemma NeedMore(len: nat, slots: nat)
    requires 0 < slots && VALUESIZE + EXTSIZE * (slots - 1) < len
    ensures slots < Need(len)
  {
  }

  /** A chain has exactly as many slots as its value needs. */
  lemma ChainOkLength(s: seq<Slot>, home: int, k: Key, c: seq<int>, bytes: Value)
    requires ChainOk(s, home, k, c) && Carries(s, c, bytes)
    ensures Need(|bytes|) == |c| && 0 < |bytes|
  {
    var d := c[..|c| - 1];
    forall j | 0 <= j < |c| - 1
      ensures |s[c[j]].value| == Cap(j)
    {
      assert LinkOk(s, home, k, c, j);
    }
    assert LinkOk(s, home, k, c, |c| - 1);
    FullPrefixLength(s, d);
    NeedOfLength(|bytes|, |c|);
  }

  // ---------------------------------------------------------------- counting slots

  lemma {:induction false} TallyUpdate(s: seq<Slot>, i: int, x: Slot, heads: bool)
    requires 0 <= i < |s|
    ensures Tally(s[i := x], heads) == Tally(s, heads) - Weight(s[i], heads) + Weight(x, heads)
    ensures Tally(s, heads) >= Weight(s[i], heads)
  {
    var s' := s[i := x];
    var n := |s| - 1;
    if i < n {
      TallyUpdate(s[..n], i, x, heads);
      assert s'[..n] == s[..n][i := x];
    } else {
      assert s'[..n] == s[..n];
    }
  }

  /** Every slot is used exactly when as many are used as there are. */
  lemma {:induction false} TallyFull(s: seq<Slot>)
    ensures Tally(s, false) <= |s|
    ensures Tally(s, false) == |s| <==> forall i | 0 <= i < |s| :: s[i].count != 0
    ensures Tally(s, false) == 0 <==> forall i | 0 <= i < |s| :: s[i].count == 0
    ensures Tally(s, true) <= Tally(s, false)
  {
    if s != [] {
      var n := |s| - 1;
      TallyFull(s[..n]);
      assert forall i | 0 <= i < |s| :: i < n ==> s[i] == s[..n][i];
    }
  }

  lemma {:induction false} TallySame(s: seq<Slot>, s': seq<Slot>, heads: bool)
    requires |s| == |s'| && forall i | 0 <= i < |s| :: Weight(s[i], heads) == Weight(s'[i], heads)
    ensures Tally(s, heads) == Tally(s', heads)
  {
    if s != [] {
      TallySame(s[..|s| - 1], s'[..|s| - 1], heads);
    }
  }

  lemma TallySwap(s: seq<Slot>, s': seq<Slot>, x: int, y: int, heads: bool)
    requires |s| == |s'| && 0 <= x < |s| && 0 <= y < |s| && x != y
    requires Weight(s'[x], heads) == Weight(s[y], heads) && Weight(s'[y], heads) == Weight(s[x], heads)
    requires forall i | 0 <= i < |s| && i != x && i != y :: Weight(s[i], heads) == Weight(s'[i], heads)
    ensures Tally(s, heads) == Tally(s', heads)
  {
    TallyUpdate(s, x, s'[x], heads);
    TallyUpdate(s[x := s'[x]], y, s'[y], heads);
    TallySame(s[x := s'[x]][y := s'[y]], s', heads);
  }

  /** `s'` is `s` with the slots of `c` emptied. */
  ghost predicate Cleared(s: seq<Slot>, c: seq<int>, s': seq<Slot>) {
    && |s'| == |s|
    && forall i | 0 <= i < |s| :: s'[i] == if i in c then s[i].(count := 0) else s[i]
  }

  lemma ClearedStep(s: seq<Slot>, c: seq<int>, j: nat, t: seq<Slot>, t': seq<Slot>)
    requires Distinct(c) && j < |c| && 0 <= c[j] < |s| && Cleared(s, c[..j], t)
    requires t' == t[c[j] := t[c[j]].(count := 0)]
    ensures Cleared(s, c[..j + 1], t')
    ensures t[c[j]] == s[c[j]]
  {
    DistinctPrefix(c, j);
    forall i ensures i in c[..j + 1] <==> i in c[..j] || i == c[j] {
      assert c[..j + 1] == c[..j] + [c[j]];
    }
  }

  /** What emptying a chain, or a first part of it, takes off the counts. */
  lemma {:induction false} ClearedTally(s: seq<Slot>, home: int, k: Key, c: seq<int>, n: nat, s': seq<Slot>)
    requires ChainOk(s, home, k, c) && n <= |c| && Cleared(s, c[..n], s')
    ensures Tally(s', false) == Tally(s, false) - n
    ensures Tally(s', true) == Tally(s, true) - if n == 0 then 0 else 1
    decreases n
  {
    if n == 0 {
      assert s' == s;
    } else {
      var i := c[n - 1];
      assert LinkOk(s, home, k, c, n - 1);
      var t := s'[i := s[i]];
      DistinctPrefix(c, n - 1);
      assert c[..n] == c[..n - 1] + [i];
      assert Cleared(s, c[..n - 1], t);
      ClearedTally(s, home, k, c, n - 1, t);
      assert s' == t[i := s[i].(count := 0)];
      TallyUpdate(t, i, s[i].(count := 0), false);
      TallyUpdate(t, i, s[i].(count := 0), true);
    }
  }

  /** A table of empty slots holds nothing. */
  lemma EmptyTable(s: seq<Slot>, home: Homing)
    requires forall i | 0 <= i < |s| :: s[i] == EMPTY_SLOT
    ensures Structure(s, home, map[], map[]) && Holds(s, map[], map[]) && Homes(s, home, {}) && Counted(s, 0, 0)
  {
    TallyFull(s);
  }

  // ---------------------------------------------------------------- removing a key

  /** Emptying all slots of a chain. */
  lemma DropChain(s: seq<Slot>, home: Homing, m: Chains, own: Owners, k: Key, s': seq<Slot>)
    requires Structure(s, home, m, own) && k in m
    requires Cleared(s, m[k], s')
    ensures Structure(s', home, m - {k}, own - (set i | i in m[k]))
  {
    var cut := set i | i in m[k];
    var m', own' := m - {k}, own - cut;
    ChainDistinct(m, own, k);
    forall q, j | q in m' && 0 <= j < |m'[q]|
      ensures Placed(m', own', q, j)
    {
      assert Placed(m, own, q, j);
      assert own[m[q][j]].key != k;
    }
    forall p | p in own'
      ensures SlotAt(s', home, m', own', p)
    {
      assert SlotAt(s, home, m, own, p);
    }
    forall p | p in own'
      ensures Owned(m', own', p)
    {
      assert SlotAt(s', home, m', own', p);
    }
  }

  lemma DropHolds(s: seq<Slot>, m: Chains, k: Key, s': seq<Slot>, contents: map<Key, Value>)
    requires k in m && Holds(s, m, contents) && Cleared(s, m[k], s')
    ensures Holds(s', m - {k}, contents - {k})
  {
    var m', contents' := m - {k}, contents - {k};
    forall q | q in m'
      ensures Spells(s', m', contents', q)
    {
      assert Spells(s, m, contents, q);
      ChainValueFrame(s, m[q], s', m[q]);
    }
  }

  // ---------------------------------------------------------------- room

  /** The slots that the stored values need in all. */
  ghost function TotalNeed(contents: map<Key, Value>): nat {
    if contents == map[] then 0 else
      var k :| k in contents;
      Need(|contents[k]|) + TotalNeed(contents - {k})
  }

  lemma {:induction false} TotalNeedRemove(contents: map<Key, Value>, k: Key)
    requires k in contents
    ensures TotalNeed(contents) == Need(|contents[k]|) + TotalNeed(contents - {k})
    decreases contents.Keys
  {
    var p :| p in contents && TotalNeed(contents) == Need(|contents[p]|) + TotalNeed(contents - {p});
    if p != k {
      TotalNeedRemove(contents - {p}, k);
      TotalNeedRemove(contents - {k}, p);
      assert contents - {p} - {k} == contents - {k} - {p};
    }
  }

  lemma TotalNeedLess(contents: map<Key, Value>, k: Key)
    ensures TotalNeed(contents - {k}) <= TotalNeed(contents)
  {
    if k in contents {
      TotalNeedRemove(contents, k);
    } else {
      assert contents - {k} == contents;
    }
  }

  /** Conservation: the used slots are those that the stored values need, and there is one head a key. */
  lemma {:induction false} TallyIsNeed(s: seq<Slot>, home: Homing, m: Chains, own: Owners, contents: map<Key, Value>)
    requires Structure(s, home, m, own) && Holds(s, m, contents)
    ensures Tally(s, false) == TotalNeed(contents)
    ensures Tally(s, true) == |contents.Keys|
    decreases contents.Keys
  {
    if k :| k in contents {
      var c := m[k];
      var s' := seq(|s|, i requires 0 <= i < |s| => if i in c then s[i].(count := 0) else s[i]);
      DropChain(s, home, m, own, k, s');
      DropHolds(s, m, k, s', contents);
      TallyIsNeed(s', home, m - {k}, own - (set i | i in c), contents - {k});
      KeyChainOk(s, home, m, own, k);
      assert c[..|c|] == c;
      ClearedTally(s, At(home, k), k, c, |c|, s');
      assert Spells(s, m, contents, k);
      ChainOkLength(s, At(home, k), k, c, contents[k]);
      TotalNeedRemove(contents, k);
      assert (contents - {k}).Keys == contents.Keys - {k};
    } else {
      assert contents == map[];
      assert forall i :: i in own ==> Owned(m, own, i);
      TallyFull(s);
    }
  }

  // ---------------------------------------------------------------- adding a key

  // A new chain is laid out in empty slots, one slot at a time.

  ghost predicate SplicedAt(s0: seq<Slot>, own: Owners, c: seq<int>, s: seq<Slot>, i: int)
    requires 0 <= i < |s| == |s0|
  {
    if i in c then i !in own else if i in own then s[i] == s0[i] else s[i].count == 0
  }

  /** `s` is `s0` but for a chain in slots that nobody owned. */
  ghost predicate Spliced(s0: seq<Slot>, own: Owners, c: seq<int>, s: seq<Slot>) {
    && |s| == |s0|
    && forall i {:trigger SplicedAt(s0, own, c, s, i)} | 0 <= i < |s| :: SplicedAt(s0, own, c, s, i)
  }

  lemma SplicedIndices(s0: seq<Slot>, own: Owners, c: seq<int>, s: seq<Slot>)
    requires Spliced(s0, own, c, s)
    ensures forall i | 0 <= i < |s| && i in own :: s[i] == s0[i] && i !in c
    ensures forall i | 0 <= i < |s| && i !in c && i !in own :: s[i].count == 0
  {
    forall i | 0 <= i < |s|
      ensures i in own ==> s[i] == s0[i] && i !in c
      ensures i !in c && i !in own ==> s[i].count == 0
    {
      assert SplicedAt(s0, own, c, s, i);
    }
  }

  /** The first `savesize` bytes of a new key's value are laid out in chain `c`. */
  ghost predicate Grown(s0: seq<Slot>, own: Owners, home: int, k: Key, c: seq<int>, s: seq<Slot>, value: Value, savesize: int) {
    && 0 < savesize <= |value|
    && Spliced(s0, own, c, s) && ChainOk(s, home, k, c) && Carries(s, c, value[..savesize])
    && (savesize < |value| ==> s[c[|c| - 1]].size == Cap(|c| - 1) && savesize == VALUESIZE + EXTSIZE * (|c| - 1))
    && Tally(s, false) == Tally(s0, false) + |c| && Tally(s, true) == Tally(s0, true) + 1
  }

  lemma FirstChunk(s0: seq<Slot>, home: Homing, m: Chains, own: Owners, k: Key, i: int, x: Slot, value: Value)
    requires Structure(s0, home, m, own) && 0 <= i < |s0| && s0[i].count == 0
    requires 0 < |value| && x.size == if |value| > VALUESIZE then VALUESIZE else |value|
    requires x.value == value[..x.size] && SlotOk(x, At(home, k), k, [i], 0)
    ensures Grown(s0, own, At(home, k), k, [i], s0[i := x], value, x.size)
  {
    var s := s0[i := x];
    assert i in own ==> SlotAt(s0, home, m, own, i);
    assert LinkOk(s, At(home, k), k, [i], 0);
    assert [i][..0] == [] && ChainValue(s, [i]) == ChainValue(s, []) + x.value;
    forall p | 0 <= p < |s|
      ensures SplicedAt(s0, own, [i], s, p)
    {
    }
    TallyUpdate(s0, i, x, false);
    TallyUpdate(s0, i, x, true);
  }

  /** Slot `i` linked behind the last slot `t`. */
  ghost predicate Linked(s: seq<Slot>, t: int, i: int, x: Slot, s': seq<Slot>) {
    && 0 <= i < |s| && 0 <= t < |s| && i != t
    && s' == s[i := x][t := s[t].(link := i)]
  }

  lemma LinkedChainOk(home: int, k: Key, c: seq<int>, s: seq<Slot>, i: int, x: Slot, s': seq<Slot>)
    requires ChainOk(s, home, k, c) && i !in c && Linked(s, c[|c| - 1], i, x, s')
    requires s[c[|c| - 1]].size == Cap(|c| - 1) && SlotOk(x, home, k, c + [i], |c|)
    ensures ChainOk(s', home, k, c + [i])
  {
    var c' := c + [i];
    forall j | 0 <= j < |c'|
      ensures LinkOk(s', home, k, c', j)
    {
      if j < |c| {
        assert LinkOk(s, home, k, c, j);
        DistinctAt(c, |c| - 1);
      }
    }
    forall p, q | 0 <= p < q < |c'|
      ensures Differ(c', p, q)
    {
      assert q < |c| ==> Differ(c, p, q);
    }
  }

  lemma LinkedCarries(c: seq<int>, s: seq<Slot>, i: int, x: Slot, s': seq<Slot>, bytes: Value)
    requires 0 < |c| && i !in c && Linked(s, c[|c| - 1], i, x, s') && Carries(s, c, bytes)
    ensures Carries(s', c + [i], bytes + x.value)
  {
    ChainValueFrame(s, c, s', c);
    ChainValueAppend(s', c, i);
  }

  lemma LinkedTally(s: seq<Slot>, t: int, i: int, x: Slot, s': seq<Slot>)
    requires Linked(s, t, i, x, s') && s[i].count == 0 && x.count == -2
    ensures Tally(s', false) == Tally(s, false) + 1 && Tally(s', true) == Tally(s, true)
  {
    forall heads: bool
      ensures Tally(s', heads) == Tally(s, heads) + Weight(x, heads)
    {
      TallyUpdate(s, i, x, heads);
      TallyUpdate(s[i := x], t, s[t].(link := i), heads);
    }
  }

  lemma NextChunk(s0: seq<Slot>, home: Homing, m: Chains, own: Owners, k: Key, c: seq<int>, s: seq<Slot>, value: Value,
                  savesize: int, i: int, len: nat, s': seq<Slot>)
    requires Structure(s0, home, m, own) && Grown(s0, own, At(home, k), k, c, s, value, savesize) && savesize < |value|
    requires len == if |value| - savesize > EXTSIZE then EXTSIZE else |value| - savesize
    requires Linked(s, c[|c| - 1], i, Slot(-2, c[|c| - 1], len, -1, [], value[savesize..savesize + len]), s')
    requires s[i].count == 0
    ensures Grown(s0, own, At(home, k), k, c + [i], s', value, savesize + len)
    ensures s'[i].count == -2 && forall p | 0 <= p < |s| && p != i :: s'[p].count == s[p].count
  {
    var x := Slot(-2, c[|c| - 1], len, -1, [], value[savesize..savesize + len]);
    ChainOkIndices(s, At(home, k), k, c);
    assert i in own ==> SlotAt(s0, home, m, own, i);
    assert SplicedAt(s0, own, c, s, i);
    assert i !in c && i !in own;
    forall p | 0 <= p < |s|
      ensures SplicedAt(s0, own, c + [i], s', p)
    {
      assert SplicedAt(s0, own, c, s, p);
    }
    assert value[..savesize] + x.value == value[..savesize + len];
    LinkedChainOk(At(home, k), k, c, s, i, x, s');
    LinkedCarries(c, s, i, x, s', value[..savesize]);
    LinkedTally(s, c[|c| - 1], i, x, s');
  }

  /** The owners that a chain adds. */
  ghost function Locs(k: Key, c: seq<int>): Owners {
    if c == [] then map[] else Locs(k, c[..|c| - 1])[c[|c| - 1] := Loc(k, |c| - 1)]
  }

  lemma {:induction false} LocsAt(k: Key, c: seq<int>)
    requires Distinct(c)
    ensures forall i :: i in Locs(k, c) <==> i in c
    ensures forall j | 0 <= j < |c| :: c[j] in Locs(k, c) && Locs(k, c)[c[j]] == Loc(k, j)
  {
    if c != [] {
      var d := c[..|c| - 1];
      DistinctPrefix(c, |c| - 1);
      LocsAt(k, d);
      assert c == d + [c[|c| - 1]];
    }
  }

  lemma AdoptPlaced(m: Chains, own: Owners, k: Key, c: seq<int>, q: Key, j: nat)
    requires Indexed(m, own) && k !in m && Distinct(c)
    requires q != k ==> forall i | i in own :: i !in c
    requires if q == k then j < |c| else q in m && j < |m[q]|
    ensures Placed(m[k := c], own + Locs(k, c), q, j)
  {
    LocsAt(k, c);
    if q != k {
      assert Placed(m, own, q, j);
      var i := m[q][j];
      assert i in own && i !in c && i !in Locs(k, c);
    } else {
      assert c[j] in Locs(k, c) && Locs(k, c)[c[j]] == Loc(k, j);
    }
  }

  lemma AdoptSlotAt(s0: seq<Slot>, home: Homing, m: Chains, own: Owners, k: Key, c: seq<int>, s: seq<Slot>, p: int)
    requires Structure(s0, home, m, own) && k !in m
    requires Spliced(s0, own, c, s) && ChainOk(s, At(home, k), k, c)
    requires p in own || p in c
    ensures p in own + Locs(k, c) && SlotAt(s, home, m[k := c], own + Locs(k, c), p)
  {
    LocsAt(k, c);
    ChainOkIndices(s, At(home, k), k, c);
    if p in own {
      assert SlotAt(s0, home, m, own, p) && SplicedAt(s0, own, c, s, p);
    } else {
      var j :| 0 <= j < |c| && c[j] == p;
      assert LinkOk(s, At(home, k), k, c, j) && SplicedAt(s0, own, c, s, p);
    }
  }

  /** The finished chain of a new key joins the table. */
  lemma AdoptChain(s0: seq<Slot>, home: Homing, m: Chains, own: Owners, k: Key, c: seq<int>, s: seq<Slot>)
    requires Structure(s0, home, m, own) && k !in m
    requires Spliced(s0, own, c, s) && ChainOk(s, At(home, k), k, c)
    ensures Structure(s, home, m[k := c], own + Locs(k, c))
  {
    var m', own' := m[k := c], own + Locs(k, c);
    LocsAt(k, c);
    SplicedIndices(s0, own, c, s);
    forall i | i in own
      ensures i !in c
    {
      assert SlotAt(s0, home, m, own, i) && SplicedAt(s0, own, c, s, i);
    }
    forall q, j | q in m' && 0 <= j < |m'[q]|
      ensures Placed(m', own', q, j)
    {
      AdoptPlaced(m, own, k, c, q, j);
    }
    forall p | p in own'
      ensures SlotAt(s, home, m', own', p)
    {
      AdoptSlotAt(s0, home, m, own, k, c, s, p);
    }
    forall p | p in own'
      ensures Owned(m', own', p)
    {
      assert SlotAt(s, home, m', own', p);
    }
  }

  lemma AdoptHolds(s0: seq<Slot>, m: Chains, own: Owners, contents: map<Key, Value>, k: Key, c: seq<int>, s: seq<Slot>,
                   bytes: Value)
    requires Indexed(m, own) && k !in m && Holds(s0, m, contents)
    requires Spliced(s0, own, c, s) && Carries(s, c, bytes)
    ensures Holds(s, m[k := c], contents[k := bytes])
  {
    SplicedIndices(s0, own, c, s);
    forall q | q in m && q != k
      ensures SameValues(s0, s, m[q])
    {
      assert Spells(s0, m, contents, q);
      ChainDistinct(m, own, q);
    }
    HoldsUpdate(s0, m, contents, s, k, c, bytes);
  }

  /** Only the owned slots matter. */
  lemma SameOwned(s0: seq<Slot>, home: Homing, m: Chains, own: Owners, contents: map<Key, Value>, s: seq<Slot>)
    requires Structure(s0, home, m, own) && Holds(s0, m, contents) && Spliced(s0, own, [], s)
    ensures Structure(s, home, m, own) && Holds(s, m, contents)
  {
    SplicedIndices(s0, own, [], s);
    forall p | p in own
      ensures SlotAt(s, home, m, own, p)
    {
      assert SlotAt(s0, home, m, own, p);
    }
    forall q | q in m
      ensures Spells(s, m, contents, q)
    {
      assert Spells(s0, m, contents, q);
      ChainDistinct(m, own, q);
      ChainValueFrame(s0, m[q], s, m[q]);
    }
  }

  /** Where the loop that stores a value has come to: at first only the head slot `x` has been written. */
  ghost predicate Laying(s0: seq<Slot>, own: Owners, home: int, k: Key, idx: int, x: Slot, c: seq<int>, s: seq<Slot>,
                         value: Value, savesize: int)
  {
    && 0 <= savesize <= |value| && 0 <= idx < |s0| == |s|
    && 0 < |c| && c[0] == idx
    && (if savesize == 0 then c == [idx] && s == s0[idx := x] else Grown(s0, own, home, k, c, s, value, savesize))
    && s[idx].count == x.count && 0 <= c[|c| - 1] < |s| && s[c[|c| - 1]].count != 0
  }

  /** What one turn of that loop writes. */
  ghost predicate Chunk(s: seq<Slot>, last: int, value: Value, savesize: int, next: int, len: int, s': seq<Slot>) {
    && 0 <= savesize < |value|
    && var room := if savesize == 0 then VALUESIZE else EXTSIZE;
    && len == (if |value| - savesize > room then room else |value| - savesize)
    && 0 <= next < |s| && 0 <= last < |s|
    && if savesize == 0 then next == last && s' == s[next := s[next].(value := value[..len], size := len)]
       else s[next].count == 0
            && Linked(s, last, next, Slot(-2, last, len, -1, [], value[savesize..savesize + len]), s')
  }

  /** Slot `idx` holds the bare head of a new key. */
  ghost predicate HeadWritten(s0: seq<Slot>, home: int, k: Key, idx: int, x: Slot) {
    && 0 <= idx < |s0| && s0[idx].count == 0
    && x.hash == home && x.key == k && x.link == -1
    && if idx == home then x.count > 0 else x.count == -1
  }

  /** A head that is written without a byte of value goes uncounted, as a used slot and as a key. */
  lemma EmptyValueMiscounts(s0: seq<Slot>, home: int, k: Key, idx: int, x: Slot, used: int, heads: int)
    requires HeadWritten(s0, home, k, idx, x) && Counted(s0, used, heads)
    ensures Counted(s0[idx := x], used + 1, heads + 1) && !Counted(s0[idx := x], used, heads)
  {
    TallyUpdate(s0, idx, x, false);
    TallyUpdate(s0, idx, x, true);
  }

  /** What an empty slot holds does not matter. */
  lemma EmptySlotBlank(s: seq<Slot>, home: Homing, m: Chains, own: Owners, contents: map<Key, Value>, idx: int, y: Slot)
    requires Structure(s, home, m, own) && Holds(s, m, contents)
    requires 0 <= idx < |s| && s[idx].count == 0 && y.count == 0
    ensures var s' := s[idx := y];
            && Structure(s', home, m, own) && Holds(s', m, contents)
            && Tally(s', false) == Tally(s, false) && Tally(s', true) == Tally(s, true)
  {
    var s' := s[idx := y];
    assert idx in own ==> SlotAt(s, home, m, own, idx);
    forall i | 0 <= i < |s|
      ensures SplicedAt(s, own, [], s', i)
    {
    }
    SameOwned(s, home, m, own, contents, s');
    TallyUpdate(s, idx, y, false);
    TallyUpdate(s, idx, y, true);
  }

  lemma LayStart(s0: seq<Slot>, own: Owners, home: int, k: Key, idx: int, x: Slot, value: Value)
    requires HeadWritten(s0, home, k, idx, x)
    ensures Laying(s0, own, home, k, idx, x, [idx], s0[idx := x], value, 0)
  {
  }

  lemma LayChunk(s0: seq<Slot>, home: Homing, m: Chains, own: Owners, k: Key, idx: int, x: Slot, c: seq<int>,
                 s: seq<Slot>, value: Value, savesize: int, next: int, len: int, s': seq<Slot>)
    requires Structure(s0, home, m, own) && Laying(s0, own, At(home, k), k, idx, x, c, s, value, savesize)
    requires HeadWritten(s0, At(home, k), k, idx, x)
    requires Chunk(s, c[|c| - 1], value, savesize, next, len, s')
    ensures Laying(s0, own, At(home, k), k, idx, x, if savesize == 0 then c else c + [next], s', value, savesize + len)
    ensures var t := if savesize == 0 then s0 else s;
            forall u, n {:trigger Counted(t, u, n)} :: Counted(t, u, n) ==> Counted(s', u + 1, n + if savesize == 0 then 1 else 0)
  {
    if savesize == 0 {
      var y := x.(value := value[..len], size := len);
      assert s' == s0[idx := y];
      FirstChunk(s0, home, m, own, k, idx, y, value);
    } else {
      NextChunk(s0, home, m, own, k, c, s, value, savesize, next, len, s');
    }
  }

  /** When no slot is empty the rest of the value cannot fit. */
  lemma LayStuck(s0: seq<Slot>, own: Owners, home: int, k: Key, c: seq<int>, s: seq<Slot>, value: Value, savesize: int)
    requires Grown(s0, own, home, k, c, s, value, savesize) && savesize < |value|
    requires forall i | 0 <= i < |s| :: s[i].count != 0
    ensures Tally(s0, false) + Need(|value|) > |s|
    ensures 0 <= c[0] < |s| && s[c[0]].hash == home
  {
    ChainOkLength(s, home, k, c, value[..savesize]);
    NeedMore(|value|, |c|);
    TallyFull(s);
    ChainOkIndices(s, home, k, c);
  }

  lemma LayDone(s0: seq<Slot>, own: Owners, home: int, k: Key, c: seq<int>, s: seq<Slot>, value: Value)
    requires Grown(s0, own, home, k, c, s, value, |value|)
    ensures Tally(s0, false) + Need(|value|) <= |s|
  {
    assert value[..|value|] == value;
    ChainOkLength(s, home, k, c, value);
    TallyFull(s);
  }

  /** What the loop leaves behind, and whether the counters know of it. */
  lemma LayEnd(s0: seq<Slot>, own: Owners, home: int, k: Key, idx: int, x: Slot, c: seq<int>, s: seq<Slot>, value: Value,
               used: int, heads: int)
    requires Laying(s0, own, home, k, idx, x, c, s, value, |value|) && HeadWritten(s0, home, k, idx, x)
    requires Counted(if |value| == 0 then s0 else s, used, heads)
    ensures if |value| == 0 then s == s0[idx := x]
            else Grown(s0, own, home, k, c, s, value, |value|) && Tally(s0, false) + Need(|value|) <= |s0|
    ensures Counted(s, used, heads) <==> 0 < |value|
  {
    if 0 < |value| {
      LayDone(s0, own, home, k, c, s, value);
    } else {
      EmptyValueMiscounts(s0, home, k, idx, x, used, heads);
    }
  }

  /** Emptying a half-built chain gives the table back. */
  lemma UndoGrown(s0: seq<Slot>, home: int, own: Owners, k: Key, c: seq<int>, s: seq<Slot>, value: Value, savesize: int,
                  s': seq<Slot>)
    requires Grown(s0, own, home, k, c, s, value, savesize) && Cleared(s, c, s')
    ensures Spliced(s0, own, [], s') && Tally(s', false) == Tally(s0, false) && Tally(s', true) == Tally(s0, true)
  {
    assert c[..|c|] == c;
    ClearedTally(s, home, k, c, |c|, s');
    forall p | 0 <= p < |s|
      ensures SplicedAt(s0, own, [], s', p)
    {
      assert SplicedAt(s0, own, c, s, p);
    }
  }

  // ---------------------------------------------------------------- moving a slot

  /** Position `j` of chain `c` moves to the empty slot `y`, with the links of its neighbours repaired. */
  ghost predicate Moved(s: seq<Slot>, c: seq<int>, j: nat, y: int, count: int, s': seq<Slot>) {
    && j < |c| && |s'| == |s| && 0 <= y < |s|
    && (forall p | 0 <= p < |c| :: 0 <= c[p] < |s|)
    && s'[c[j]].count == 0
    && s'[y] == s[c[j]].(count := count)
    && (j > 0 ==> s'[c[j - 1]] == s[c[j - 1]].(link := y))
    && (j + 1 < |c| ==> s'[c[j + 1]] == s[c[j + 1]].(hash := y))
    && forall i | 0 <= i < |s| && i != c[j] && i != y && (j > 0 ==> i != c[j - 1]) && (j + 1 < |c| ==> i != c[j + 1]) ::
         s'[i] == s[i]
  }

  /** The edits that move a head slot amount to a move. */
  lemma HeadMoved(s: seq<Slot>, home: int, k: Key, c: seq<int>, y: int, count: int, s': seq<Slot>)
    requires ChainOk(s, home, k, c) && 0 <= y < |s| && y !in c && 0 <= c[0] < |s|
    requires var x := s[c[0]];
             var t := s[y := x.(count := count)][c[0] := x.(count := 0)];
             && -1 <= x.link < |s|
             && s' == if x.link != -1 then t[x.link := t[x.link].(hash := y)] else t
    ensures Moved(s, c, 0, y, count, s')
  {
    ChainOkIndices(s, home, k, c);
    DistinctAt(c, 0);
  }

  /** A displaced head or continuation block and its neighbours, as whoever moves it finds them. */
  lemma Movable(s: seq<Slot>, home: Homing, m: Chains, own: Owners, x: int, y: int)
    requires Structure(s, home, m, own) && 0 <= x < |s| && s[x].count < 0 && 0 <= y < |s| && s[y].count == 0
    ensures x in own && y !in own && own[x].key in m && own[x].pos < |m[own[x].key]| && m[own[x].key][own[x].pos] == x
    ensures ChainOk(s, At(home, own[x].key), own[x].key, m[own[x].key]) && y !in m[own[x].key]
    ensures s[x].count == if own[x].pos > 0 then -2 else -1
    ensures -1 <= s[x].link < |s| && s[x].link != y && s[x].link != x
    ensures s[x].count == -2 ==> 0 <= s[x].hash < |s| && s[x].hash != y && s[x].hash != x
  {
    assert y in own ==> SlotAt(s, home, m, own, y);
    assert x in own ==> SlotAt(s, home, m, own, x);
    var Loc(k, j) := own[x];
    KeyChainOk(s, home, m, own, k);
    ChainDistinct(m, own, k);
    ChainOkIndices(s, At(home, k), k, m[k]);
    DistinctAt(m[k], j);
  }

  /** The edits that move any slot out of the way amount to a move. */
  lemma SlotMoved(s: seq<Slot>, home: int, k: Key, c: seq<int>, j: nat, y: int, s': seq<Slot>)
    requires ChainOk(s, home, k, c) && j < |c| && 0 <= y < |s| && y !in c && 0 <= c[j] < |s| && s[c[j]].count < 0
    requires var x := s[c[j]];
             var t := s[y := x][c[j] := x.(count := 0)];
             && -1 <= x.link < |s| && (x.count == -2 ==> 0 <= x.hash < |s|)
             && var t1 := if x.count == -2 then t[x.hash := t[x.hash].(link := y)] else t;
                s' == if x.link != -1 then t1[x.link := t1[x.link].(hash := y)] else t1
    ensures Moved(s, c, j, y, s[c[j]].count, s')
  {
    ChainOkIndices(s, home, k, c);
    DistinctAt(c, j);
    assert LinkOk(s, home, k, c, j);
    if 0 < j && j + 1 < |c| {
      DistinctAt(c, j - 1);
    }
  }

  lemma MovedSlotOk(s: seq<Slot>, home: int, k: Key, c: seq<int>, j: nat, y: int, count: int, s': seq<Slot>, p: nat)
    requires Distinct(c) && y !in c && p < |c| && Moved(s, c, j, y, count, s')
    requires SlotOk(s[c[p]], home, k, c, p)
    requires if j > 0 then count == -2 else if y == home then count > 0 else count == -1
    ensures SlotOk(s'[c[j := y][p]], home, k, c[j := y], p)
  {
    DistinctAt(c, p);
    if p != j && p != j - 1 && p != j + 1 {
      assert s'[c[p]] == s[c[p]];
    }
  }

  lemma MovedSlotValue(s: seq<Slot>, c: seq<int>, j: nat, y: int, count: int, s': seq<Slot>)
    requires Distinct(c) && y !in c && Moved(s, c, j, y, count, s')
    ensures ChainValue(s', c[j := y]) == ChainValue(s, c)
  {
    DistinctAt(c, j);
    ChainValueFrame(s, c, s', c[j := y]);
  }

  lemma MovedIndexed(m: Chains, own: Owners, k: Key, j: nat, y: int, m': Chains, own': Owners)
    requires Indexed(m, own) && k in m && j < |m[k]| && y !in own
    requires m' == m[k := m[k][j := y]] && own' == (own - {m[k][j]})[y := Loc(k, j)]
    ensures Indexed(m', own')
  {
    assert Placed(m, own, k, j);
    forall q, p | q in m' && 0 <= p < |m'[q]|
      ensures Placed(m', own', q, p)
    {
      assert Placed(m, own, q, p);
    }
    forall i | i in own'
      ensures Owned(m', own', i)
    {
      if i != y {
        assert Owned(m, own, i) && own'[i] == own[i] && (own[i].key == k ==> own[i].pos != j);
      }
    }
  }

  lemma MovedSlotAt(s: seq<Slot>, home: Homing, m: Chains, own: Owners, k: Key, j: nat, y: int, count: int,
                    s': seq<Slot>, i: int)
    requires Structure(s, home, m, own) && k in m && y !in own && Moved(s, m[k], j, y, count, s')
    requires if j > 0 then count == -2 else if y == At(home, k) then count > 0 else count == -1
    requires i in own
    ensures 0 <= i < |s| && own[i].key in m && own[i].pos < |m[own[i].key]|
    ensures SlotOk(s'[if i == m[k][j] then y else i], At(home, own[i].key), own[i].key,
                   if own[i].key == k then m[k][j := y] else m[own[i].key], own[i].pos)
  {
    assert SlotAt(s, home, m, own, i);
    ChainDistinct(m, own, k);
    if own[i].key == k {
      MovedSlotOk(s, At(home, k), k, m[k], j, y, count, s', own[i].pos);
    } else {
      assert i !in m[k];
      assert s'[i] == s[i];
    }
  }

  /** Moving a used slot into an empty one keeps the structure. */
  lemma Relocate(s: seq<Slot>, home: Homing, m: Chains, own: Owners, k: Key, j: nat, y: int, count: int, s': seq<Slot>,
                 m': Chains, own': Owners)
    requires Structure(s, home, m, own) && k in m && y !in own && Moved(s, m[k], j, y, count, s')
    requires if j > 0 then count == -2 else if y == At(home, k) then count > 0 else count == -1
    requires m' == m[k := m[k][j := y]] && own' == (own - {m[k][j]})[y := Loc(k, j)]
    ensures Structure(s', home, m', own')
  {
    var x := m[k][j];
    assert Placed(m, own, k, j);
    MovedIndexed(m, own, k, j, y, m', own');
    forall i | i in own'
      ensures SlotAt(s', home, m', own', i)
    {
      assert Owned(m', own', i);
      var o := if i == y then x else i;
      MovedSlotAt(s, home, m, own, k, j, y, count, s', o);
    }
    ChainDistinct(m, own, k);
  }

  /** A move changes no key's value. */
  lemma RelocateHolds(s: seq<Slot>, m: Chains, own: Owners, contents: map<Key, Value>, k: Key, j: nat, y: int, count: int,
                      s': seq<Slot>)
    requires Indexed(m, own) && Holds(s, m, contents)
    requires k in m && y !in own && Moved(s, m[k], j, y, count, s')
    ensures Holds(s', m[k := m[k][j := y]], contents)
  {
    ChainDistinct(m, own, k);
    MovedSlotValue(s, m[k], j, y, count, s');
    forall q | q in m && q != k
      ensures SameValues(s, s', m[q])
    {
      assert Spells(s, m, contents, q);
      ChainsDisjoint(m, own, k, q);
      ChainDistinct(m, own, q);
    }
    assert Spells(s, m, contents, k);
    HoldsUpdate(s, m, contents, s', k, m[k][j := y], contents[k]);
    assert contents[k := contents[k]] == contents;
  }

  /** A move changes no count, as long as heads stay heads. */
  lemma MovedTally(s: seq<Slot>, c: seq<int>, j: nat, y: int, count: int, s': seq<Slot>)
    requires Moved(s, c, j, y, count, s') && Distinct(c) && y !in c && s[y].count == 0
    requires s[c[j]].count != 0 && count != 0 && (IsHead(s[c[j]]) <==> count > 0 || count == -1)
    ensures Tally(s', false) == Tally(s, false) && Tally(s', true) == Tally(s, true)
  {
    DistinctAt(c, j);
    TallySwap(s, s', c[j], y, false);
    TallySwap(s, s', c[j], y, true);
  }

  /** Another positive count for a leader touches neither structure nor contents. */
  lemma Recount(s: seq<Slot>, home: Homing, m: Chains, own: Owners, contents: map<Key, Value>, i: int, count: int)
    requires Structure(s, home, m, own) && Holds(s, m, contents)
    requires 0 <= i < |s| && s[i].count > 0 && count > 0
    ensures var s' := s[i := s[i].(count := count)];
            && Structure(s', home, m, own) && Holds(s', m, contents)
            && Tally(s', false) == Tally(s, false) && Tally(s', true) == Tally(s, true)
  {
    var s' := s[i := s[i].(count := count)];
    HeadOf(s, home, m, own, i);
    forall p | p in own
      ensures SlotAt(s', home, m, own, p)
    {
      assert SlotAt(s, home, m, own, p);
    }
    forall q | q in m
      ensures Spells(s', m, contents, q)
    {
      assert Spells(s, m, contents, q);
      ChainValueFrame(s, m[q], s', m[q]);
    }
    TallyUpdate(s, i, s'[i], false);
    TallyUpdate(s, i, s'[i], true);
  }

  // ---------------------------------------------------------------- home slots

  lemma SameHomeAdd(home: Homing, keys: set<Key>, k: Key, i: int)
    requires k !in keys
    ensures |SameHome(home, keys + {k}, i)| == |SameHome(home, keys, i)| + if At(home, k) == i then 1 else 0
  {
    var before, after := SameHome(home, keys, i), SameHome(home, keys + {k}, i);
    assert after == if At(home, k) == i then before + {k} else before;
  }

  /** Of fewer keys fewer share a home slot. */
  lemma SameHomeLess(home: Homing, some: set<Key>, more: set<Key>, i: int)
    requires some <= more
    ensures |SameHome(home, some, i)| <= |SameHome(home, more, i)|
  {
    var a, b := SameHome(home, some, i), SameHome(home, more, i);
    assert b == a + (b - a);
  }

  /** Home bookkeeping depends only on the positive counts. */
  lemma HomesFrame(s: seq<Slot>, home: Homing, keys: set<Key>, s': seq<Slot>)
    requires |s| == |s'| && Homes(s, home, keys)
    requires forall i | 0 <= i < |s| && (s[i].count > 0 || s'[i].count > 0) :: s'[i].count == s[i].count
    ensures Homes(s', home, keys)
  {
    forall k | k in keys ensures Led(s', home, k) {
      assert Led(s, home, k);
    }
    forall i | 0 <= i < |s| ensures Leads(s', home, keys, i) {
      assert Leads(s, home, keys, i);
    }
  }

  /** One more key: its home slot now counts one more. */
  lemma HomesAdd(s: seq<Slot>, home: Homing, keys: set<Key>, k: Key, s': seq<Slot>)
    requires |s| == |s'| && Homes(s, home, keys) && k !in keys
    requires var h := At(home, k);
             && h < |s|
             && s'[h].count == 1 + (if s[h].count > 0 then s[h].count else 0)
             && forall i | 0 <= i < |s| && i != h && (s[i].count > 0 || s'[i].count > 0) :: s'[i].count == s[i].count
    ensures Homes(s', home, keys + {k})
  {
    var h := At(home, k);
    forall q | q in keys + {k} ensures Led(s', home, q) {
      assert q in keys ==> Led(s, home, q);
    }
    forall i | 0 <= i < |s|
      ensures Leads(s', home, keys + {k}, i)
    {
      assert Leads(s, home, keys, i);
      SameHomeAdd(home, keys, k, i);
      if i == h && s[h].count <= 0 {
        assert forall q | q in keys :: Led(s, home, q);
        assert SameHome(home, keys, h) == {};
      }
    }
  }

  /** One key fewer. */
  lemma HomesRemove(s: seq<Slot>, home: Homing, keys: set<Key>, k: Key, s': seq<Slot>)
    requires |s| == |s'| && Homes(s, home, keys) && k in keys
    requires var h := At(home, k);
             && h < |s|
             && s'[h].count == s[h].count - 1
             && forall i | 0 <= i < |s| && i != h && (s[i].count > 0 || s'[i].count > 0) :: s'[i].count == s[i].count
    ensures Homes(s', home, keys - {k})
  {
    var h := At(home, k);
    var rest := keys - {k};
    assert rest + {k} == keys;
    forall i | 0 <= i < |s|
      ensures Leads(s', home, rest, i)
    {
      assert Leads(s, home, keys, i);
      SameHomeAdd(home, rest, k, i);
    }
    forall q | q in rest ensures Led(s', home, q) {
      assert Led(s, home, q) && Leads(s, home, keys, h);
      SameHomeAdd(home, rest, k, h);
      assert At(home, q) == h ==> q in SameHome(home, rest, h);
    }
  }

  // ---------------------------------------------------------------- finding a key

  lemma HeadOf(s: seq<Slot>, home: Homing, m: Chains, own: Owners, i: int)
    requires Structure(s, home, m, own) && 0 <= i < |s| && IsHead(s[i])
    ensures i in own && own[i].pos == 0
    ensures var k := own[i].key; k in m && 0 < |m[k]| && m[k][0] == i && s[i].key == k && s[i].hash == At(home, k)
  {
    assert i in own ==> SlotAt(s, home, m, own, i);
  }

  lemma KeyHead(s: seq<Slot>, home: Homing, m: Chains, own: Owners, k: Key)
    requires Structure(s, home, m, own) && k in m
    ensures 0 < |m[k]| && 0 <= m[k][0] < |s|
    ensures var x := s[m[k][0]]; IsHead(x) && x.key == k && x.hash == At(home, k) && (x.count > 0 <==> m[k][0] == At(home, k))
    ensures m[k][0] in own && own[m[k][0]] == Loc(k, 0)
  {
    ChainSlot(s, home, m, own, k, 0);
  }

  /** Positions passed by a circular scan that began at `start` and has come to `idx`. */
  predicate Scanned(start: int, idx: int, wrapped: bool, n: int, i: int) {
    if wrapped then 0 <= i < idx || start <= i < n else start <= i < idx
  }

  /** The keys of home slot `hash` whose heads a scan has passed. */
  ghost function SeenKeys(home: Homing, m: Chains, hash: int, idx: int, wrapped: bool, n: int): set<Key> {
    set k | k in m && At(home, k) == hash && 0 < |m[k]| && Scanned(hash, idx, wrapped, n, m[k][0])
  }

  /** A scan for `key` has passed `count` heads of its home slot without meeting it. */
  ghost predicate Seeking(home: Homing, m: Chains, hash: int, key: Key, idx: int, wrapped: bool, n: int, count: int) {
    && 0 <= idx < n && 0 <= hash < n && At(home, key) == hash
    && (if wrapped then idx < hash else hash <= idx)
    && count == |SeenKeys(home, m, hash, idx, wrapped, n)| && key !in SeenKeys(home, m, hash, idx, wrapped, n)
  }

  lemma SeekStart(home: Homing, m: Chains, hash: int, key: Key, n: int)
    requires At(home, key) == hash && 0 <= hash < n
    ensures Seeking(home, m, hash, key, hash, false, n, 0)
  {
    assert SeenKeys(home, m, hash, hash, false, n) == {};
  }

  lemma SeenStep(s: seq<Slot>, home: Homing, m: Chains, own: Owners, hash: int, idx: int, wrapped: bool)
    requires Structure(s, home, m, own) && 0 <= idx < |s| && 0 <= hash < |s|
    requires if wrapped then idx < hash else hash <= idx
    ensures var seen := SeenKeys(home, m, hash, idx, wrapped, |s|);
            SeenKeys(home, m, hash, idx + 1, wrapped, |s|) ==
            if s[idx].hash == hash && IsHead(s[idx]) then seen + {s[idx].key} else seen
    ensures s[idx].hash == hash && IsHead(s[idx]) ==>
              s[idx].key !in SeenKeys(home, m, hash, idx, wrapped, |s|) && s[idx].key in m && m[s[idx].key][0] == idx
  {
    if IsHead(s[idx]) {
      HeadOf(s, home, m, own, idx);
    }
    forall q | q in m && 0 < |m[q]| && m[q][0] == idx
      ensures IsHead(s[idx]) && q == s[idx].key && s[idx].hash == At(home, q)
    {
      KeyHead(s, home, m, own, q);
    }
  }

  lemma SeenWrap(home: Homing, m: Chains, hash: int, n: int)
    ensures SeenKeys(home, m, hash, n, false, n) == SeenKeys(home, m, hash, 0, true, n)
  {
  }

  /** One step of the scan: it finds the key, or goes on, or has gone round and the key is not there. */
  lemma SeekStep(s: seq<Slot>, home: Homing, m: Chains, own: Owners, hash: int, key: Key, idx: int, wrapped: bool, count: int)
    returns (hit: bool, next: int, around: bool)
    requires Structure(s, home, m, own) && Seeking(home, m, hash, key, idx, wrapped, |s|, count)
    ensures s[idx].hash == hash && IsHead(s[idx]) ==> s[idx].key in m
    ensures hit == (s[idx].hash == hash && IsHead(s[idx]))
    ensures if idx + 1 >= |s| then next == 0 && around else next == idx + 1 && around == wrapped
    ensures if hit && s[idx].key == key then key in m && m[key][0] == idx
            else if next == hash then key !in m
            else Seeking(home, m, hash, key, next, around, |s|, if hit then count + 1 else count)
  {
    hit := s[idx].hash == hash && IsHead(s[idx]);
    next, around := if idx + 1 >= |s| then 0 else idx + 1, idx + 1 >= |s| || wrapped;
    SeenStep(s, home, m, own, hash, idx, wrapped);
    SeenWrap(home, m, hash, |s|);
    if key in m {
      KeyHead(s, home, m, own, key);
    }
  }

  /** A scan that has met as many keys as the leader counts has met them all. */
  lemma SeekDone(s: seq<Slot>, home: Homing, m: Chains, own: Owners, hash: int, key: Key, idx: int, wrapped: bool, count: int)
    requires Structure(s, home, m, own) && Homes(s, home, m.Keys)
    requires Seeking(home, m, hash, key, idx, wrapped, |s|, count) && 0 < s[hash].count <= count
    ensures key !in m
  {
    var seen, all := SeenKeys(home, m, hash, idx, wrapped, |s|), SameHome(home, m.Keys, hash);
    assert Leads(s, home, m.Keys, hash);
    assert seen <= all;
    assert |all - seen| == |all| - |seen|;
    assert all - seen == {};
    assert key in m ==> key in all - seen;
  }

  // ---------------------------------------------------------------- keys that share a home slot

  /** Two stored keys with one home slot make its leader count at least two. */
  lemma Shared(s: seq<Slot>, home: Homing, keys: set<Key>, k: Key, q: Key)
    requires Homes(s, home, keys) && k in keys && q in keys && k != q && At(home, k) == At(home, q)
    ensures At(home, k) < |s| && s[At(home, k)].count >= 2
  {
    assert Led(s, home, k) && Leads(s, home, keys, At(home, k));
    var all := SameHome(home, keys, At(home, k));
    assert {k, q} <= all;
    assert |all - {k, q}| == |all| - |{k, q}|;
  }

  /** A leader that counts more than its own key has another, displaced one. */
  lemma Displaced(s: seq<Slot>, home: Homing, m: Chains, own: Owners, k: Key) returns (q: Key)
    requires Structure(s, home, m, own) && Homes(s, home, m.Keys) && k in m
    requires 0 < |m[k]| && m[k][0] == At(home, k) < |s| && s[At(home, k)].count > 1
    ensures q in m && q != k && At(home, q) == At(home, k)
    ensures 0 < |m[q]| && 0 <= m[q][0] < |s| && m[q][0] != m[k][0] && s[m[q][0]].count == -1 && s[m[q][0]].hash == At(home, k)
  {
    assert Led(s, home, k) && Leads(s, home, m.Keys, At(home, k));
    var all := SameHome(home, m.Keys, At(home, k));
    assert |all - {k}| > 0;
    q :| q in all - {k};
    KeyHead(s, home, m, own, k);
    KeyHead(s, home, m, own, q);
  }

  /** Removing the only key of a home slot. */
  lemma HomesDropLast(s: seq<Slot>, home: Homing, keys: set<Key>, k: Key, c: seq<int>, s': seq<Slot>)
    requires Homes(s, home, keys) && k in keys && ChainOk(s, At(home, k), k, c) && Cleared(s, c, s')
    requires c[0] == At(home, k) < |s| && s[c[0]].count == 1
    ensures Homes(s', home, keys - {k})
  {
    assert Led(s, home, k);
    ChainOkIndices(s, At(home, k), k, c);
    HomesRemove(s, home, keys, k, s');
  }

  /** Removing a displaced key, its leader's count already lowered. */
  lemma HomesDropDisplaced(s: seq<Slot>, home: Homing, keys: set<Key>, k: Key, c: seq<int>, s': seq<Slot>)
    requires Homes(s, home, keys) && k in keys && ChainOk(s, At(home, k), k, c)
    requires var h := At(home, k); h < |s| && c[0] != h && Cleared(s[h := s[h].(count := s[h].count - 1)], c, s')
    ensures Homes(s', home, keys - {k})
  {
    assert Led(s, home, k);
    ChainOkIndices(s, At(home, k), k, c);
    assert LinkOk(s, At(home, k), k, c, 0);
    HomesRemove(s, home, keys, k, s');
  }

  /** Removing a leader's key and moving a displaced key of the same home slot into its place. */
  lemma HomesPromote(s: seq<Slot>, home: Homing, keys: set<Key>, k: Key, c: seq<int>, s1: seq<Slot>, d: seq<int>, s': seq<Slot>)
    requires Homes(s, home, keys) && k in keys && ChainOk(s, At(home, k), k, c) && Cleared(s, c, s1)
    requires c[0] == At(home, k) < |s| && 0 < |d| && s1[c[0]].count == 0
    requires Moved(s1, d, 0, c[0], s[c[0]].count - 1, s') && s1[d[0]].count == -1
    ensures Homes(s', home, keys - {k})
  {
    assert Led(s, home, k);
    ChainOkIndices(s, At(home, k), k, c);
    HomesRemove(s, home, keys, k, s');
  }

  // ---------------------------------------------------------------- listing the table

  /** The entries whose heads stand at position `i` or later, in table order. */
  ghost function Listing(s: seq<Slot>, contents: map<Key, Value>, i: nat): seq<(Key, Value)>
    decreases |s| - i
  {
    if i >= |s| then [] else
      var rest := Listing(s, contents, i + 1);
      if IsHead(s[i]) && s[i].key in contents then [(s[i].key, contents[s[i].key])] + rest else rest
  }

  lemma {:induction false} ListingMembers(s: seq<Slot>, contents: map<Key, Value>, i: nat)
    ensures forall p | p in Listing(s, contents, i) :: p.0 in contents && p.1 == contents[p.0]
    decreases |s| - i
  {
    if i < |s| {
      ListingMembers(s, contents, i + 1);
    }
  }

  /** `l` holds each key whose head stands at `i` or later, once, with its value, and nothing else. */
  ghost predicate ListsFrom(l: seq<(Key, Value)>, m: Chains, contents: map<Key, Value>, i: nat)
    requires contents.Keys == m.Keys && forall k | k in m :: 0 < |m[k]|
  {
    && (forall p, q | 0 <= p < q < |l| :: l[p].0 != l[q].0)
    && (forall p | 0 <= p < |l| :: l[p].0 in contents && l[p].1 == contents[l[p].0] && m[l[p].0][0] >= i)
    && (forall k | k in contents && i <= m[k][0] :: (k, contents[k]) in l)
  }

  lemma {:induction false} ListingHolds(s: seq<Slot>, home: Homing, m: Chains, own: Owners, contents: map<Key, Value>, i: nat)
    requires Structure(s, home, m, own) && contents.Keys == m.Keys
    ensures ListsFrom(Listing(s, contents, i), m, contents, i)
    decreases |s| - i
  {
    var l := Listing(s, contents, i);
    forall k | k in contents ensures 0 <= m[k][0] < |s| {
      KeyHead(s, home, m, own, k);
    }
    if i < |s| {
      var rest := Listing(s, contents, i + 1);
      ListingHolds(s, home, m, own, contents, i + 1);
      if IsHead(s[i]) {
        HeadOf(s, home, m, own, i);
        assert l == [(s[i].key, contents[s[i].key])] + rest;
        forall k | k in contents && m[k][0] == i ensures k == s[i].key {
          KeyHead(s, home, m, own, k);
        }
        forall k | k in contents && i <= m[k][0] ensures (k, contents[k]) in l {
          assert m[k][0] > i ==> (k, contents[k]) in rest;
          assert (k, contents[k]) == l[0] || (k, contents[k]) in rest;
        }
      } else {
        forall k | k in contents && i <= m[k][0] ensures (k, contents[k]) in l {
          KeyHead(s, home, m, own, k);
        }
      }
    }
  }

  /** The listing of the whole table gives back its contents, and each entry once. */
  lemma ListingComplete(s: seq<Slot>, home: Homing, m: Chains, own: Owners, contents: map<Key, Value>)
    requires Structure(s, home, m, own) && contents.Keys == m.Keys
    ensures var l := Listing(s, contents, 0);
            && (forall p, q | 0 <= p < q < |l| :: l[p].0 != l[q].0)
            && (forall k, v :: (k, v) in l <==> k in contents && contents[k] == v)
  {
    var l := Listing(s, contents, 0);
    ListingHolds(s, home, m, own, contents, 0);
    forall k | k in contents ensures 0 <= m[k][0] {
      KeyHead(s, home, m, own, k);
    }
    assert forall p | 0 <= p < |l| :: l[p] == (l[p].0, l[p].1);
  }
}
