/** Whole runs of calls on the array hash table against an abstract map. */
module TableRuns {
  import opened HashSlots
  import opened SlotReader
  import opened HashArr

  datatype TableOp = PutOp(key: Key, value: Value) | RemoveOp(key: Key) | GetOp(key: Key) | ExistOp(key: Key) | ClearOp

  datatype Answer = Done(outcome: Outcome) | Got(fetched: Fetched) | Exists(found: bool)

  type Contents = map<Key, Value>

  /** The map that a call answers from, and the one it leaves. */
  ghost function Step(n: nat, contents: Contents, op: TableOp): (Answer, Contents) {
    match op
    case PutOp(k, v) => var (r, after) := PutSpec(n, contents, k, v); (Done(r), after)
    case RemoveOp(k) => (Done(if k in contents then Success else Failure(ENOENT)), contents - {k})
    case GetOp(k) => (Got(if k in contents then Found(contents[k]) else Missing), contents)
    case ExistOp(k) => (Exists(k in contents), contents)
    case ClearOp => (Done(Success), map[])
  }

  ghost function Run(n: nat, ops: seq<TableOp>): Contents
    decreases |ops|
  {
    if ops == [] then map[] else Step(n, Run(n, ops[..|ops| - 1]), ops[|ops| - 1]).1
  }

  ghost function Answers(n: nat, ops: seq<TableOp>): seq<Answer>
    decreases |ops|
  {
    if ops == [] then []
    else
      var before, op := ops[..|ops| - 1], ops[|ops| - 1];
      Answers(n, before) + [Step(n, Run(n, before), op).0]
  }

  /** Keys within the documented size, values of at least a byte, and never more keys on one home slot than a
      `short` can count. */
  ghost predicate Admissible(n: nat, hashFn: Key -> nat, contents: Contents, op: TableOp)
    requires 0 < n
  {
    op.PutOp? ==> |op.key| <= KEYSIZE && 0 < |op.value| && |Rivals(n, hashFn, contents, op.key)| < 0x7FFF
  }

  /** The other stored keys with the home slot of `k`. */
  ghost function Rivals(n: nat, hashFn: Key -> nat, contents: Contents, k: Key): set<Key>
    requires 0 < n
  {
    set q | q in contents && q != k && hashFn(q) % n == hashFn(k) % n
  }

  ghost predicate AllAdmissible(n: nat, hashFn: Key -> nat, ops: seq<TableOp>)
    requires 0 < n
  {
    forall i | 0 <= i < |ops| :: Admissible(n, hashFn, Run(n, ops[..i]), ops[i])
  }

  /** The stored values never need more slots than there are: the state of every run fits its table. */
  lemma {:induction false} RunFits(n: nat, ops: seq<TableOp>)
    ensures TotalNeed(Run(n, ops)) <= n
    decreases |ops|
  {
    if ops != [] {
      var before, op := Run(n, ops[..|ops| - 1]), ops[|ops| - 1];
      RunFits(n, ops[..|ops| - 1]);
      match op
      case PutOp(k, v) => PutFits(n, before, k, v);
      case RemoveOp(k) => TotalNeedLess(before, k);
      case _ =>
    }
  }

  /** A successful put needs the slots of its value on top of those of the other keys. */
  lemma PutFits(n: nat, contents: Contents, k: Key, v: Value)
    requires TotalNeed(contents) <= n
    ensures TotalNeed(PutSpec(n, contents, k, v).1) <= n
  {
    TotalNeedLess(contents, k);
    TotalNeedRemove(contents[k := v], k);
    assert contents[k := v] - {k} == contents - {k};
  }

  /** What a call does not name it does not touch, and what it reports is what later calls see. */
  lemma StepMeaning(n: nat, contents: Contents, op: TableOp, q: Key)
    ensures var (answer, after) := Step(n, contents, op);
            && (!op.ClearOp? && q != op.key ==> (q in after <==> q in contents) && (q in after ==> after[q] == contents[q]))
            && (op.PutOp? && answer == Done(Success) ==> Step(n, after, GetOp(op.key)).0 == Got(Found(op.value)))
            && (op.RemoveOp? || op.ClearOp? ==>
                  Step(n, after, ExistOp(q)).0 == Exists(op.RemoveOp? && q != op.key && q in contents))
            && (op.GetOp? || op.ExistOp? ==> after == contents)
            && (op.RemoveOp? ==> answer == Done(if op.key in contents then Success else Failure(ENOENT)))
            && (op.GetOp? && op.key !in contents ==> answer == Got(Missing))
            && (op.ExistOp? ==> answer == Exists(op.key in contents))
            && (op.ClearOp? ==> answer == Done(Success) && after == map[])
            && (op.PutOp? ==>
                  answer == Done(if TotalNeed(contents) < n && TotalNeed(contents - {op.key}) + Need(|op.value|) <= n
                                 then Success else Failure(ENOBUFS)))
            && (op.PutOp? && answer != Done(Success) ==>
                  after == if TotalNeed(contents) < n then contents - {op.key} else contents)
  {
  }

  method Apply(t: HashArr, op: TableOp) returns (answer: Answer)
    requires t.Valid() && Admissible(t.maxslots, t.hashFn, t.contents, op)
    modifies t, t.slots
    ensures t.Valid()
    ensures (answer, t.contents) == Step(t.maxslots, old(t.contents), op)
  {
    match op {
      case PutOp(k, v) =>
        RivalsAreSameHome(t, k);
        var r := t.Put(k, v);
        answer := Done(r);
      case RemoveOp(k) =>
        var r := t.Remove(k);
        answer := Done(r);
      case GetOp(k) =>
        var r := t.Get(k);
        answer := Got(r);
      case ExistOp(k) =>
        var r := t.Exist(k);
        answer := Exists(r);
      case ClearOp =>
        t.Clear();
        answer := Done(Success);
    }
  }

  lemma RivalsAreSameHome(t: HashArr, k: Key)
    requires t.Valid() && |Rivals(t.maxslots, t.hashFn, t.contents, k)| < 0x7FFF
    ensures t.Countable(k)
  {
    assert t.Homed(k);
    forall q | q in t.contents
      ensures At(t.home, q) == t.hashFn(q) % t.maxslots
    {
      assert t.Homed(q);
    }
    assert SameHome(t.home, t.contents.Keys - {k}, At(t.home, k)) == Rivals(t.maxslots, t.hashFn, t.contents, k);
  }

  /** Refinement over every run from a fresh table: all answers are those of the abstract map. */
  method Replay(maxslots: nat, hashFn: Key -> nat, ops: seq<TableOp>) returns (answers: seq<Answer>, t: HashArr)
    requires 0 < maxslots && AllAdmissible(maxslots, hashFn, ops)
    ensures answers == Answers(maxslots, ops)
    ensures t.Valid() && t.contents == Run(maxslots, ops)
  {
    t := new HashArr(maxslots, hashFn);
    answers := [];
    for i := 0 to |ops|
      invariant fresh(t) && fresh(t.slots) && t.Valid() && t.maxslots == maxslots && t.hashFn == hashFn
      invariant answers == Answers(maxslots, ops[..i])
      invariant t.contents == Run(maxslots, ops[..i])
    {
      assert ops[..i + 1][..i] == ops[..i];
      var answer := Apply(t, ops[i]);
      answers := answers + [answer];
    }
    assert ops[..|ops|] == ops;
  }

  lemma Regroup<T>(a: seq<T>, x: T, b: seq<T>)
    ensures a + ([x] + b) == a + [x] + b
  {
  }

  /** Reading a whole table by repeated `GetNext` yields its contents, each entry once, and then ends. */
  method Traverse(t: HashArr) returns (entries: seq<(Key, Value)>)
    requires t.Valid()
    ensures forall p, q | 0 <= p < q < |entries| :: entries[p].0 != entries[q].0
    ensures forall k, v :: (k, v) in entries <==> k in t.contents && t.contents[k] == v
  {
    entries := [];
    ghost var s, contents := t.slots[..], t.contents;
    ghost var l := Listing(s, contents, 0);
    ghost var rest := l;
    var entry, idx := t.GetNext(0);
    while entry.Some?
      invariant entries + rest == l
      invariant rest == if entry.Some? then [entry.value] + Listing(s, contents, idx) else []
      decreases entry.Some?, t.maxslots - idx
    {
      rest := Listing(s, contents, idx);
      Regroup(entries, entry.value, rest);
      entries := entries + [entry.value];
      entry, idx := t.GetNext(idx);
    }
    assert entries + [] == entries;
    t.ListsAll();
  }

  /** How long a value an empty table of `n` slots can take, for any key that the library admits. */
  method PutAlone(n: nat, hashFn: Key -> nat, key: Key, value: Value) returns (r: Outcome, t: HashArr)
    requires 0 < n && |key| <= 96 && 0 < |value|
    ensures r == if |value| <= 128 + 242 * (n - 1) then Success else Failure(ENOBUFS)
    ensures t.Valid() && t.contents == if r.Success? then map[key := value] else map[]
  {
    t := new HashArr(n, hashFn);
    assert SameHome(t.home, t.contents.Keys - {key}, At(t.home, key)) == {};
    NeedExact(|value|, n);
    PutSpecNew(n, map[], key, value);
    r := t.Put(key, value);
  }
}
