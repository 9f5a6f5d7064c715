/**
 One producer and one consumer on the same block, interleaved at every access to shared memory.
 The cursors, the message count and each byte of the block are read and written one at a time, under
 sequential consistency; the bytes of one copy may move in any order. A run is any list of steps:
 a step that the state does not offer leaves it alone.
 */
module MsgQueueSpsc {
  import opened Bytes
  import opened Ring

  // ------------------------------------------------------------- the writer's layouts

  /** One byte store. */
  datatype Store = Store(at: int, value: byte)

  function Copy(at: int, bytes: seq<byte>): (stores: seq<Store>)
    ensures |stores| == |bytes|
  {
    seq(|bytes|, k requires 0 <= k < |bytes| => Store(at + k, bytes[k]))
  }

  /** The trailing magic cut by the end of the block, `secondLen` bytes of it at the start. */
  function SplitMagic(secondLen: int, B: int): seq<Store> {
    var S: byte, P: byte, X: byte := 'S' as int, 'P' as int, 'X' as int;
    if secondLen == 3 then [Store(B - 1, S), Store(0, P), Store(1, P), Store(2, X)]
    else if secondLen == 2 then [Store(B - 2, S), Store(B - 1, P), Store(0, P), Store(1, X)]
    else if secondLen == 1 then [Store(B - 3, S), Store(B - 2, P), Store(B - 1, P), Store(0, X)]
    else []
  }

  /** The whole frame fits before the end of the block. */
  function StraightPlan(t: int, data: Message): seq<Store> {
    Copy(t, Header(|data|)) + Copy(t + MAGIC_LEN + HEAD_SIZE, data) + Copy(t + MAGIC_LEN + HEAD_SIZE + |data|, MAGIC)
  }

  /** The header fits and the payload is split after `firstLen` bytes. */
  function SplitBodyPlan(t: int, data: Message, firstLen: nat): seq<Store>
    requires firstLen <= |data|
  {
    Copy(t, Header(|data|)) + Copy(t + MAGIC_LEN + HEAD_SIZE, data[..firstLen]) + Copy(0, data[firstLen..])
    + Copy(|data| - firstLen, MAGIC)
  }

  /** Header and payload fit and the trailing magic is split. */
  function SplitMagicPlan(t: int, B: int, data: Message, secondLen: int): seq<Store> {
    Copy(t, Header(|data|)) + Copy(t + MAGIC_LEN + HEAD_SIZE, data) + SplitMagic(secondLen, B)
  }

  /** The header itself is split after `tailLen` bytes. */
  function SplitHeadPlan(t: int, data: Message, tailLen: nat): seq<Store>
    requires tailLen < MAGIC_LEN + HEAD_SIZE
  {
    var secondLen := MAGIC_LEN + HEAD_SIZE - tailLen;
    Copy(t, Header(|data|)[..tailLen]) + Copy(0, Header(|data|)[tailLen..]) + Copy(secondLen, data)
    + Copy(secondLen + |data|, MAGIC)
  }

  /** The stores of an enqueue at cursor `t`, by the branches that pick the layout. */
  function Plan(t: int, B: int, data: Message): seq<Store>
    requires 0 <= t <= B && |data| + OVERHEAD < B
  {
    var tailLen := B - t;
    var totalLen := |data| + HEAD_SIZE + 2 * MAGIC_LEN;
    if tailLen >= totalLen then StraightPlan(t, data)
    else if tailLen >= HEAD_SIZE + MAGIC_LEN && tailLen < HEAD_SIZE + 2 * MAGIC_LEN + |data| then
      var firstLen := tailLen - MAGIC_LEN - HEAD_SIZE;
      var secondLen := |data| + MAGIC_LEN - firstLen;
      if secondLen >= MAGIC_LEN then SplitBodyPlan(t, data, firstLen) else SplitMagicPlan(t, B, data, secondLen)
    else SplitHeadPlan(t, data, tailLen)
  }

  /** The tail that the same branches publish. */
  function NewTail(t: int, B: int, len: int): int {
    var tailLen := B - t;
    var totalLen := len + HEAD_SIZE + 2 * MAGIC_LEN;
    if tailLen >= totalLen then t + (len + HEAD_SIZE + MAGIC_LEN * 2)
    else if tailLen >= HEAD_SIZE + MAGIC_LEN && tailLen < HEAD_SIZE + 2 * MAGIC_LEN + len then t + (totalLen - B)
    else MAGIC_LEN + HEAD_SIZE - tailLen + len + MAGIC_LEN
  }

  ghost predicate Spells(plan: seq<Store>, t: int, B: int, bytes: seq<byte>) {
    && |plan| == |bytes|
    && forall k | 0 <= k < |bytes| :: plan[k] == Store(Place(t, k, B), bytes[k])
  }

  lemma StraightSpells(t: int, B: int, data: Message)
    requires 0 <= t && t + |data| + OVERHEAD <= B
    ensures Spells(StraightPlan(t, data), t, B, Frame(data))
  {
  }

  lemma SplitBodySpells(t: int, B: int, data: Message, firstLen: nat)
    requires 0 <= t && firstLen <= |data| && t + MAGIC_LEN + HEAD_SIZE + firstLen == B && |data| + OVERHEAD < B
    ensures Spells(SplitBodyPlan(t, data, firstLen), t, B, Frame(data))
  {
  }

  lemma SplitMagicIsMagic(p: int, B: int, secondLen: int)
    requires 1 <= secondLen <= 3 && p + MAGIC_LEN == B + secondLen && OVERHEAD < B
    ensures Spells(SplitMagic(secondLen, B), p, B, MAGIC)
  {
    MagicLetters();
  }

  lemma SplitMagicSpells(t: int, B: int, data: Message, secondLen: int)
    requires 0 <= t && 1 <= secondLen <= 3 && t + |data| + OVERHEAD == B + secondLen && |data| + OVERHEAD < B
    ensures Spells(SplitMagicPlan(t, B, data, secondLen), t, B, Frame(data))
  {
    SplitMagicIsMagic(t + MAGIC_LEN + HEAD_SIZE + |data|, B, secondLen);
  }

  lemma SplitHeadSpells(t: int, B: int, data: Message, tailLen: nat)
    requires 0 <= t && tailLen < MAGIC_LEN + HEAD_SIZE && t + tailLen == B && |data| + OVERHEAD < B
    ensures Spells(SplitHeadPlan(t, data, tailLen), t, B, Frame(data))
  {
  }

  lemma NewTailAdvances(t: int, B: int, data: Message)
    requires 0 <= t <= B && |data| + OVERHEAD < B
    ensures NewTail(t, B, |data|) == Advance(t, |Frame(data)|, B)
  {
  }

  /** Every layout stores the same circular frame, byte for byte, and publishes the same cursor. */
  lemma PlanIsFrame(t: int, B: int, data: Message)
    requires 0 <= t <= B && |data| + OVERHEAD < B
    ensures Spells(Plan(t, B, data), t, B, Frame(data))
    ensures NewTail(t, B, |data|) == Advance(t, |Frame(data)|, B)
  {
    var tailLen := B - t;
    if tailLen >= |data| + OVERHEAD {
      StraightSpells(t, B, data);
    } else if tailLen < MAGIC_LEN + HEAD_SIZE {
      SplitHeadSpells(t, B, data, tailLen);
    } else if tailLen <= |data| + MAGIC_LEN + HEAD_SIZE {
      SplitBodySpells(t, B, data, tailLen - MAGIC_LEN - HEAD_SIZE);
    } else {
      SplitMagicSpells(t, B, data, |data| + OVERHEAD - tailLen);
    }
  }

  /** The block after a list of stores. */
  function StoreAll(block: seq<byte>, stores: seq<Store>): (block': seq<byte>)
    ensures |block'| == |block|
  {
    if stores == [] then block
    else
      var n := |stores| - 1;
      var before := StoreAll(block, stores[..n]);
      if 0 <= stores[n].at < |block| then before[stores[n].at := stores[n].value] else before
  }

  lemma {:induction false} SpelledIsWritten(block: seq<byte>, t: int, bytes: seq<byte>, plan: seq<Store>)
    requires 0 <= t <= |block| && |bytes| < |block| && Spells(plan, t, |block|, bytes)
    ensures Written(block, t, bytes, StoreAll(block, plan))
    decreases |plan|
  {
    if plan != [] {
      var n := |plan| - 1;
      assert Spells(plan[..n], t, |block|, bytes[..n]);
      SpelledIsWritten(block, t, bytes[..n], plan[..n]);
      assert Offset(t, Place(t, n, |block|), |block|) == n;
    }
  }

  /** The store plan of an enqueue and the sequential write of a frame leave the same block. */
  lemma PlanIsWrite(block: seq<byte>, t: int, data: Message, block': seq<byte>)
    requires |data| + OVERHEAD < |block| && Written(block, t, Frame(data), block')
    ensures StoreAll(block, Plan(t, |block|, data)) == block'
  {
    PlanIsFrame(t, |block|, data);
    SpelledIsWritten(block, t, Frame(data), Plan(t, |block|, data));
  }

  // ------------------------------------------------------------- the reader's addresses

  /** The address of byte `k` of `n` bytes read behind cursor `h`: one slice, or two. */
  function ReadAddress(h: int, n: int, k: int, B: int): int {
    if h + n > B then
      var firstSize := B - h;
      if k < firstSize then h + k else k - firstSize
    else h + k
  }

  function NewHead(h: int, n: int, B: int): int {
    if h + n > B then n - (B - h) else h + n
  }

  /** Reader and writer walk the block alike. */
  lemma ReaderMatchesWriter(h: int, n: int, k: int, B: int)
    requires 0 <= h <= B && 0 <= k < n <= B
    ensures ReadAddress(h, n, k, B) == Place(h, k, B) && NewHead(h, n, B) == Advance(h, n, B)
  {
  }

  // ------------------------------------------------------------- the state

  /** Where the producer stands. `at` records how many messages had been taken when it read the head. */
  datatype Producer =
    | Waiting
    | SawHead(data: Message, h: int, at: nat)
    | Writing(data: Message, t: int, plan: seq<Store>, pending: set<nat>)
    | Published

  /** Where the consumer stands. `seen` records how many messages had been sent when it read the tail. */
  datatype Consumer =
    | Idle
    | Admitted(room: nat)
    | TookHead(room: nat, h: int)
    | TookCursors(room: nat, h: int, t: int, seen: nat)
    | Heading(room: nat, h: int, t: int, seen: nat, got: map<nat, byte>)
    | Reading(h: int, len: nat, got: map<nat, byte>)
    | Trailing(bytes: seq<byte>)

  /**
   The shared block, cursors and count, the two sides, and the history since the queue was last cleared:
   messages whose tail was published, payloads handed out, frames behind the head, refusals, and whether
   a check of the reader ever failed or an admitted reader ever met an empty queue.
   */
  datatype State = State(
    block: seq<byte>, head: int, tail: int, count: int, producer: Producer, consumer: Consumer,
    sent: seq<Message>, delivered: seq<seq<byte>>, taken: nat, refused: nat, broken: bool, deceived: bool)

  datatype Step =
    | ReadHead(data: Message)
    | ReadTail
    | WriteByte(k: nat)
    | PublishTail
    | CountUp
    | Gate(room: nat)
    | TakeHead
    | TakeTail
    | CountDown
    | ReadHeaderByte(k: nat)
    | CheckHeader
    | ReadBodyByte(k: nat)
    | PublishHead
    | CheckTrailer
    | Clear

  function Start(block: seq<byte>): State {
    State(block, 0, 0, 0, Waiting, Idle, [], [], 0, 0, false, false)
  }

  predicate Whole(got: map<nat, byte>, n: nat) {
    forall k: nat | k < n :: k in got
  }

  function Gathered(got: map<nat, byte>, n: nat): (bytes: seq<byte>)
    requires Whole(got, n)
    ensures |bytes| == n
  {
    seq(n, k requires 0 <= k < n => got[k])
  }

  // ------------------------------------------------------------- the producer's steps

  function Upto(n: nat): (all: set<nat>)
    ensures forall k: nat :: k in all <==> k < n
  {
    if n == 0 then {} else Upto(n - 1) + {n - 1}
  }

  /** Cursors beyond the block clear the queue; otherwise the frame is refused or its copy begins. */
  function ReadTailStep(s: State): State
    requires s.producer.SawHead?
  {
    var h, t, data := s.producer.h, s.tail, s.producer.data;
    var B := |s.block|;
    if !(0 <= h <= B && 0 <= t <= B) then s.(producer := Waiting, broken := true)
    else
      var freeLen := if h > t then h - t else h + B - t;
      var totalLen := |data| + HEAD_SIZE + 2 * MAGIC_LEN;
      if freeLen <= totalLen then s.(producer := Waiting)
      else s.(producer := Writing(data, t, Plan(t, B, data), Upto(totalLen)))
  }

  function WriteByteStep(s: State, k: nat): State
    requires s.producer.Writing? && k in s.producer.pending
  {
    var data, t, plan := s.producer.data, s.producer.t, s.producer.plan;
    if k < |plan| && 0 <= plan[k].at < |s.block| then
      s.(block := s.block[plan[k].at := plan[k].value], producer := Writing(data, t, plan, s.producer.pending - {k}))
    else s.(broken := true)
  }

  function ProducerNext(s: State, step: Step): State {
    match step
    case ReadHead(data) => if s.producer.Waiting? then s.(producer := SawHead(data, s.head, s.taken)) else s
    case ReadTail => if s.producer.SawHead? then ReadTailStep(s) else s
    case WriteByte(k) => if s.producer.Writing? && k in s.producer.pending then WriteByteStep(s, k) else s
    case PublishTail =>
      if s.producer.Writing? && s.producer.pending == {} then
        s.(tail := NewTail(s.tail, |s.block|, |s.producer.data|), sent := s.sent + [s.producer.data], producer := Published)
      else s
    case CountUp => if s.producer.Published? then s.(count := s.count + 1, producer := Waiting) else s
    case _ => s
  }

  // ------------------------------------------------------------- the consumer's steps

  function TakeTailStep(s: State): State
    requires s.consumer.TookHead?
  {
    var h, t := s.consumer.h, s.tail;
    if !(0 <= h <= |s.block| && 0 <= t <= |s.block|) then s.(consumer := Idle, broken := true)
    else if h == t then s.(consumer := Idle, deceived := true)
    else s.(consumer := TookCursors(s.consumer.room, h, t, |s.sent|))
  }

  /** Reads the byte that number `k` of a copy of `n` bytes behind `h` comes from. */
  function Fetch(s: State, h: int, n: nat, k: nat): (r: (bool, byte)) {
    var a := ReadAddress(h, n, k, |s.block|);
    if 0 <= a < |s.block| then (true, s.block[a]) else (false, 0)
  }

  /** The reader's checks of magic, length and room. */
  function CheckHeaderStep(s: State): State
    requires s.consumer.Heading? && Whole(s.consumer.got, MAGIC_LEN + HEAD_SIZE)
  {
    var h, t := s.consumer.h, s.consumer.t;
    var B := |s.block|;
    var usedLen := if t > h then t - h else t + B - h;
    var psHead := Gathered(s.consumer.got, MAGIC_LEN + HEAD_SIZE);
    var totalLen := DecodeLE32(psHead[MAGIC_LEN..]);
    if psHead[..MAGIC_LEN] != MAGIC || totalLen > usedLen then s.(consumer := Idle, broken := true)
    else
      var dataLen := ToUint32(totalLen + TWO_TO_32 - HEAD_SIZE - MAGIC_LEN);
      if dataLen > s.consumer.room then s.(consumer := Idle, refused := s.refused + 1)
      else s.(consumer := Reading(NewHead(h, MAGIC_LEN + HEAD_SIZE, B), dataLen, map[]))
  }

  function WithGot(c: Consumer, got: map<nat, byte>): Consumer {
    match c
    case Heading(room, h, t, seen, _) => Heading(room, h, t, seen, got)
    case Reading(h, len, _) => Reading(h, len, got)
    case _ => c
  }

  function ConsumerNext(s: State, step: Step): State {
    match step
    case Gate(room) => if s.consumer.Idle? && s.count != 0 then s.(consumer := Admitted(room)) else s
    case TakeHead => if s.consumer.Admitted? then s.(consumer := TookHead(s.consumer.room, s.head)) else s
    case TakeTail => if s.consumer.TookHead? then TakeTailStep(s) else s
    case CountDown =>
      if s.consumer.TookCursors? then
        var c := s.consumer;
        s.(count := s.count - 1, consumer := Heading(c.room, c.h, c.t, c.seen, map[]))
      else s
    case ReadHeaderByte(k) =>
      if s.consumer.Heading? && k < MAGIC_LEN + HEAD_SIZE && k !in s.consumer.got then
        var (ok, value) := Fetch(s, s.consumer.h, MAGIC_LEN + HEAD_SIZE, k);
        if ok then s.(consumer := WithGot(s.consumer, s.consumer.got[k := value])) else s.(broken := true)
      else s
    case CheckHeader =>
      if s.consumer.Heading? && Whole(s.consumer.got, MAGIC_LEN + HEAD_SIZE) then CheckHeaderStep(s) else s
    case ReadBodyByte(k) =>
      if s.consumer.Reading? && k < s.consumer.len && k !in s.consumer.got then
        var (ok, value) := Fetch(s, s.consumer.h, s.consumer.len, k);
        if ok then s.(consumer := WithGot(s.consumer, s.consumer.got[k := value])) else s.(broken := true)
      else s
    case PublishHead =>
      if s.consumer.Reading? && Whole(s.consumer.got, s.consumer.len) then
        s.(head := NewHead(s.consumer.h, s.consumer.len, |s.block|), taken := s.taken + 1,
           consumer := Trailing(Gathered(s.consumer.got, s.consumer.len)))
      else s
    case CheckTrailer =>
      if s.consumer.Trailing? then
        var bytes := s.consumer.bytes;
        if |bytes| < MAGIC_LEN || bytes[|bytes| - MAGIC_LEN..] != MAGIC then s.(consumer := Idle, broken := true)
        else s.(consumer := Idle, delivered := s.delivered + [bytes[..|bytes| - MAGIC_LEN]])
      else s
    case _ => s
  }

  /** A quiescent queue may be cleared. */
  function ClearNext(s: State): State {
    if s.producer.Waiting? && s.consumer.Idle? then
      s.(head := 0, tail := 0, count := 0, sent := [], delivered := [], taken := 0, refused := 0)
    else s
  }

  function Next(s: State, step: Step): State {
    match step
    case ReadHead(_) => ProducerNext(s, step)
    case ReadTail => ProducerNext(s, step)
    case WriteByte(_) => ProducerNext(s, step)
    case PublishTail => ProducerNext(s, step)
    case CountUp => ProducerNext(s, step)
    case Clear => ClearNext(s)
    case _ => ConsumerNext(s, step)
  }

  /** The state that a schedule leads to. */
  function Run(block: seq<byte>, steps: seq<Step>): State {
    if steps == [] then Start(block) else Next(Run(block, steps[..|steps| - 1]), steps[|steps| - 1])
  }

  // ------------------------------------------------------------- what every step keeps

  function Unread(s: State): seq<Message>
    requires s.taken <= |s.sent|
  {
    s.sent[s.taken..]
  }

  /** The bytes of a frame that are not pending stand behind cursor `t`. */
  ghost predicate Copied(block: seq<byte>, t: int, bytes: seq<byte>, pending: set<nat>) {
    && 0 <= t <= |block| && |bytes| < |block|
    && forall k: nat | k < |bytes| && k !in pending :: block[Place(t, k, |block|)] == bytes[k]
  }

  /** A snapshot of the head: the cursor behind the first `at` messages, which may have moved on since. */
  ghost predicate ProducerOk(p: Producer, block: seq<byte>, tail: int, sent: seq<Message>, taken: nat)
    requires taken <= |sent|
  {
    var B := |block|;
    match p
    case Waiting => true
    case SawHead(data, h, at) =>
      && at <= taken && 0 <= h <= B && |Frames(sent[at..])| < B
      && tail == Advance(h, |Frames(sent[at..])|, B)
    case Writing(data, t, plan, pending) =>
      && t == tail && Spells(plan, t, B, Frame(data)) && |Frames(sent[taken..])| + |Frame(data)| < B
      && (forall k | k in pending :: k < |Frame(data)|)
      && Copied(block, t, Frame(data), pending)
    case Published => true
  }

  ghost predicate SnapshotOk(B: int, head: int, sent: seq<Message>, taken: nat, h: int, t: int, seen: nat) {
    && taken < seen <= |sent| && h == head
    && t == Advance(h, |Frames(sent[taken..seen])|, B)
  }

  ghost predicate ConsumerOk(c: Consumer, B: int, head: int, count: int, sent: seq<Message>, taken: nat)
    requires taken <= |sent|
  {
    match c
    case Idle => true
    case Admitted(_) => 0 < count
    case TookHead(_, h) => 0 < count && h == head
    case TookCursors(_, h, t, seen) => 0 < count && SnapshotOk(B, head, sent, taken, h, t, seen)
    case Heading(_, h, t, seen, got) =>
      && SnapshotOk(B, head, sent, taken, h, t, seen)
      && forall k: nat | k in got :: k < MAGIC_LEN + HEAD_SIZE && got[k] == Frame(sent[taken])[k]
    case Reading(h, len, got) =>
      && taken < |sent| && len == |sent[taken]| + MAGIC_LEN
      && h == Advance(head, MAGIC_LEN + HEAD_SIZE, B)
      && forall k: nat | k in got :: k < len && got[k] == (sent[taken] + MAGIC)[k]
    case Trailing(bytes) => 0 < taken && bytes == sent[taken - 1] + MAGIC
  }

  /** The count: frames in the ring, less one that is published but not yet counted, less one that is counted
      down but not yet passed by the head, less the refusals. */
  function Accounted(s: State): int {
    |s.sent| - s.taken - (if s.producer.Published? then 1 else 0)
    - (if s.consumer.Heading? || s.consumer.Reading? then 1 else 0) - s.refused
  }

  ghost predicate Inv(s: State) {
    && s.taken <= |s.sent|
    && Stored(s.block, s.head, s.tail, Unread(s))
    && ProducerOk(s.producer, s.block, s.tail, s.sent, s.taken)
    && ConsumerOk(s.consumer, |s.block|, s.head, s.count, s.sent, s.taken)
    && 0 <= s.count == Accounted(s)
    && s.delivered == s.sent[..if s.consumer.Trailing? then s.taken - 1 else s.taken]
    && !s.broken && !s.deceived
  }

  lemma SuffixFrames(ms: seq<Message>, i: nat, j: nat)
    requires i <= j <= |ms|
    ensures Frames(ms[i..]) == Frames(ms[i..j]) + Frames(ms[j..])
  {
    FramesAppend(ms[i..j], ms[j..]);
    assert ms[i..j] + ms[j..] == ms[i..];
  }

  /** A stale head only understates the room: what fits behind it fits behind the real one. */
  lemma StaleHeadFits(s: State)
    requires Inv(s) && s.producer.SawHead?
    ensures 0 <= s.producer.h <= |s.block| && 0 <= s.tail <= |s.block|
    ensures FreeLen(s.producer.h, s.tail, |s.block|) + |Frames(Unread(s))| <= |s.block|
  {
    var h, at := s.producer.h, s.producer.at;
    SuffixFrames(s.sent, at, s.taken);
    Lengths(h, |Frames(s.sent[at..])|, |s.block|);
  }

  lemma CopyBegins(s: State, plan: seq<Store>)
    requires Inv(s) && s.producer.SawHead? && Spells(plan, s.tail, |s.block|, Frame(s.producer.data))
    requires FreeLen(s.producer.h, s.tail, |s.block|) > |Frame(s.producer.data)|
    ensures Inv(s.(producer := Writing(s.producer.data, s.tail, plan, Upto(|Frame(s.producer.data)|))))
  {
    StaleHeadFits(s);
  }

  lemma ReadTailKeeps(s: State)
    requires Inv(s) && s.producer.SawHead?
    ensures Inv(ReadTailStep(s))
  {
    var data, B := s.producer.data, |s.block|;
    StaleHeadFits(s);
    if FreeLen(s.producer.h, s.tail, B) > |data| + OVERHEAD {
      PlanIsFrame(s.tail, B, data);
      CopyBegins(s, Plan(s.tail, B, data));
    }
  }

  /** Byte `a` is none of the `n` bytes behind cursor `head`. */
  ghost predicate Outside(a: int, head: int, n: int, B: int) {
    forall j | 0 <= j < n :: a != Place(head, j, B)
  }

  /** A store of the producer lands outside the unread bytes. */
  lemma WriteByteMisses(s: State, k: nat)
    requires Inv(s) && s.producer.Writing? && k in s.producer.pending
    ensures k < |s.producer.plan|
    ensures var store := s.producer.plan[k];
            0 <= store.at < |s.block| && Outside(store.at, s.head, |Frames(Unread(s))|, |s.block|)
  {
  }

  lemma StoreElsewhere(block: seq<byte>, head: int, n: int, store: Store)
    requires 0 <= head <= |block| && 0 <= n <= |block| && 0 <= store.at < |block|
    requires Outside(store.at, head, n, |block|)
    ensures Window(block[store.at := store.value], head, n) == Window(block, head, n)
  {
    var block' := block[store.at := store.value];
    forall j | 0 <= j < n
      ensures Window(block', head, n)[j] == Window(block, head, n)[j]
    {
      assert store.at != Place(head, j, |block|);
      WindowAt(block, head, n, j);
      WindowAt(block', head, n, j);
    }
  }

  lemma StoreCopies(block: seq<byte>, t: int, bytes: seq<byte>, pending: set<nat>, k: nat)
    requires Copied(block, t, bytes, pending) && k < |bytes|
    ensures Copied(block[Place(t, k, |block|) := bytes[k]], t, bytes, pending - {k})
  {
  }

  lemma WriteByteKeeps(s: State, k: nat)
    requires Inv(s) && s.producer.Writing? && k in s.producer.pending
    ensures Inv(WriteByteStep(s, k))
  {
    var data, t, B := s.producer.data, s.producer.t, |s.block|;
    WriteByteMisses(s, k);
    StoreElsewhere(s.block, s.head, |Frames(Unread(s))|, s.producer.plan[k]);
    StoreCopies(s.block, t, Frame(data), s.producer.pending, k);
  }

  /** Once every byte is in place the tail may move: the frame behind it is whole. */
  lemma CopiedWhole(block: seq<byte>, t: int, bytes: seq<byte>)
    requires Copied(block, t, bytes, {})
    ensures Window(block, t, |bytes|) == bytes
  {
    forall k: nat | k < |bytes|
      ensures Window(block, t, |bytes|)[k] == bytes[k]
    {
      WindowAt(block, t, |bytes|, k);
    }
  }

  lemma PublishTailKeeps(s: State)
    requires Inv(s) && s.producer.Writing? && s.producer.pending == {}
    ensures Inv(ProducerNext(s, PublishTail))
  {
    var data, t, B := s.producer.data, s.producer.t, |s.block|;
    NewTailAdvances(t, B, data);
    CopiedWhole(s.block, t, Frame(data));
    StoredExtend(s.block, s.head, t, Unread(s), data);
    var s' := ProducerNext(s, PublishTail);
    assert Unread(s') == Unread(s) + [data];
    if s.consumer.TookCursors? || s.consumer.Heading? {
      assert s'.sent[s.taken..s.consumer.seen] == s.sent[s.taken..s.consumer.seen];
    }
  }

  lemma ReadHeadKeeps(s: State, data: Message)
    requires Inv(s) && s.producer.Waiting?
    ensures Inv(s.(producer := SawHead(data, s.head, s.taken)))
  {
    var s' := s.(producer := SawHead(data, s.head, s.taken));
    assert ProducerOk(s'.producer, s.block, s.tail, s.sent, s.taken);
  }

  lemma CountUpKeeps(s: State)
    requires Inv(s) && s.producer.Published?
    ensures Inv(s.(count := s.count + 1, producer := Waiting))
  {
  }

  lemma ProducerKeeps(s: State, step: Step)
    requires Inv(s)
    ensures Inv(ProducerNext(s, step))
  {
    if ProducerNext(s, step) != s {
      match step
      case ReadHead(data) => ReadHeadKeeps(s, data);
      case ReadTail => ReadTailKeeps(s);
      case WriteByte(k) => WriteByteKeeps(s, k);
      case PublishTail => PublishTailKeeps(s);
      case CountUp => CountUpKeeps(s);
    }
  }

  // ------------------------------------------------------------- the consumer keeps it

  /** An admitted reader finds a message, and keeps finding it whatever the producer does meanwhile. */
  lemma TakeTailKeeps(s: State)
    requires Inv(s) && s.consumer.TookHead?
    ensures Inv(TakeTailStep(s)) && TakeTailStep(s).consumer.TookCursors?
  {
    assert Unread(s) == s.sent[s.taken..|s.sent|];
    FramesCount(Unread(s));
    Lengths(s.head, |Frames(Unread(s))|, |s.block|);
  }

  /** Every byte that the reader fetches belongs to the oldest unread frame. */
  lemma FetchReadsFrame(s: State, h: int, n: nat, k: nat, bytes: seq<byte>)
    requires 0 <= h <= |s.block| && k < n == |bytes| <= |s.block| && Window(s.block, h, n) == bytes
    ensures Fetch(s, h, n, k) == (true, bytes[k])
  {
    ReaderMatchesWriter(h, n, k, |s.block|);
    WindowAt(s.block, h, n, k);
  }

  /** What a reader past the gate has before it. */
  lemma OldestFrame(s: State)
    requires Inv(s) && s.taken < |s.sent|
    ensures var m, B := s.sent[s.taken], |s.block|;
            var h8 := Advance(s.head, MAGIC_LEN + HEAD_SIZE, B);
            && 0 <= s.head <= B && 0 <= h8 <= B && |Frame(m)| < B
            && Window(s.block, s.head, MAGIC_LEN + HEAD_SIZE) == Header(|m|)
            && Window(s.block, h8, |m| + MAGIC_LEN) == m + MAGIC
            && Stored(s.block, Advance(h8, |m| + MAGIC_LEN, B), s.tail, Unread(s)[1..])
            && |Frames(Unread(s)[1..])| <= |Frames(Unread(s))|
  {
    FirstFrame(s.block, s.head, s.tail, Unread(s));
    FrameParts(s.block, s.head, s.sent[s.taken]);
    assert Unread(s)[0] == s.sent[s.taken];
  }

  lemma ReadHeaderByteKeeps(s: State, k: nat)
    requires Inv(s) && s.consumer.Heading? && k < MAGIC_LEN + HEAD_SIZE && k !in s.consumer.got
    ensures Inv(ConsumerNext(s, ReadHeaderByte(k)))
  {
    OldestFrame(s);
    var m := s.sent[s.taken];
    FetchReadsFrame(s, s.head, MAGIC_LEN + HEAD_SIZE, k, Header(|m|));
    assert Frame(m)[k] == Header(|m|)[k];
  }

  lemma ReadBodyByteKeeps(s: State, k: nat)
    requires Inv(s) && s.consumer.Reading? && k < s.consumer.len && k !in s.consumer.got
    ensures Inv(ConsumerNext(s, ReadBodyByte(k)))
  {
    OldestFrame(s);
    FetchReadsFrame(s, s.consumer.h, s.consumer.len, k, s.sent[s.taken] + MAGIC);
  }

  /** The snapshots of the cursors leave room for the oldest frame. */
  lemma SnapshotHoldsFrame(s: State, h: int, t: int, seen: nat)
    requires Inv(s) && SnapshotOk(|s.block|, s.head, s.sent, s.taken, h, t, seen)
    ensures |Frame(s.sent[s.taken])| <= UsedLen(h, t, |s.block|) && h != t
  {
    var ms := s.sent[s.taken..seen];
    SuffixFrames(s.sent, s.taken, seen);
    Lengths(h, |Frames(ms)|, |s.block|);
    assert ms[0] == s.sent[s.taken];
  }

  lemma GatheredHeader(s: State)
    requires Inv(s) && s.consumer.Heading? && Whole(s.consumer.got, MAGIC_LEN + HEAD_SIZE)
    ensures Gathered(s.consumer.got, MAGIC_LEN + HEAD_SIZE) == Header(|s.sent[s.taken]|)
  {
    var m := s.sent[s.taken];
    var psHead := Gathered(s.consumer.got, MAGIC_LEN + HEAD_SIZE);
    forall k: nat | k < MAGIC_LEN + HEAD_SIZE
      ensures psHead[k] == Header(|m|)[k]
    {
      assert psHead[k] == s.consumer.got[k] == Frame(m)[k];
    }
  }

  lemma HeaderDecodes(m: Message)
    ensures Header(|m|)[..MAGIC_LEN] == MAGIC && DecodeLE32(Header(|m|)[MAGIC_LEN..]) == |Frame(m)|
    ensures ToUint32(|Frame(m)| + TWO_TO_32 - HEAD_SIZE - MAGIC_LEN) == |m| + MAGIC_LEN
  {
    DecodeEncodeLE32(|m| + OVERHEAD);
    assert Header(|m|)[..MAGIC_LEN] == MAGIC && Header(|m|)[MAGIC_LEN..] == EncodeLE32(|m| + OVERHEAD);
  }

  /** Every check of the reader passes; what remains is whether its buffer is large enough. */
  lemma HeaderChecksPass(s: State)
    requires Inv(s) && s.consumer.Heading? && Whole(s.consumer.got, MAGIC_LEN + HEAD_SIZE)
    ensures var m, c, B := s.sent[s.taken], s.consumer, |s.block|;
            CheckHeaderStep(s) ==
            if c.room < |m| + MAGIC_LEN then s.(consumer := Idle, refused := s.refused + 1)
            else s.(consumer := Reading(Advance(c.h, MAGIC_LEN + HEAD_SIZE, B), |m| + MAGIC_LEN, map[]))
  {
    var m := s.sent[s.taken];
    SnapshotHoldsFrame(s, s.consumer.h, s.consumer.t, s.consumer.seen);
    GatheredHeader(s);
    HeaderDecodes(m);
  }

  lemma CheckHeaderKeeps(s: State)
    requires Inv(s) && s.consumer.Heading? && Whole(s.consumer.got, MAGIC_LEN + HEAD_SIZE)
    ensures Inv(CheckHeaderStep(s))
  {
    HeaderChecksPass(s);
  }

  lemma PublishHeadKeeps(s: State)
    requires Inv(s) && s.consumer.Reading? && Whole(s.consumer.got, s.consumer.len)
    ensures Inv(ConsumerNext(s, PublishHead))
  {
    OldestFrame(s);
    var c, m, s' := s.consumer, s.sent[s.taken], ConsumerNext(s, PublishHead);
    assert Gathered(c.got, c.len) == m + MAGIC;
    assert Unread(s') == Unread(s)[1..];
  }

  lemma CheckTrailerKeeps(s: State)
    requires Inv(s) && s.consumer.Trailing?
    ensures Inv(ConsumerNext(s, CheckTrailer))
  {
    var m, bytes := s.sent[s.taken - 1], s.consumer.bytes;
    assert bytes[|bytes| - MAGIC_LEN..] == MAGIC && bytes[..|bytes| - MAGIC_LEN] == m;
  }

  lemma ConsumerKeeps(s: State, step: Step)
    requires Inv(s)
    ensures Inv(ConsumerNext(s, step))
  {
    var c := s.consumer;
    match step
    case TakeTail => if c.TookHead? { TakeTailKeeps(s); }
    case ReadHeaderByte(k) => if c.Heading? && k < MAGIC_LEN + HEAD_SIZE && k !in c.got { ReadHeaderByteKeeps(s, k); }
    case CheckHeader => if c.Heading? && Whole(c.got, MAGIC_LEN + HEAD_SIZE) { CheckHeaderKeeps(s); }
    case ReadBodyByte(k) => if c.Reading? && k < c.len && k !in c.got { ReadBodyByteKeeps(s, k); }
    case PublishHead => if c.Reading? && Whole(c.got, c.len) { PublishHeadKeeps(s); }
    case CheckTrailer => if c.Trailing? { CheckTrailerKeeps(s); }
    case _ =>
  }

  // ------------------------------------------------------------- every run

  lemma ClearKeeps(s: State)
    requires Inv(s)
    ensures Inv(ClearNext(s))
  {
    assert Unread(ClearNext(s)) == if s.producer.Waiting? && s.consumer.Idle? then [] else Unread(s);
  }

  lemma SizeKept(s: State, step: Step)
    ensures |Next(s, step).block| == |s.block|
  {
  }

  /** Whatever step comes next. */
  lemma StepKeeps(s: State, step: Step)
    requires Inv(s)
    ensures Inv(Next(s, step))
  {
    match step
    case ReadHead(_) => ProducerKeeps(s, step);
    case ReadTail => ProducerKeeps(s, step);
    case WriteByte(_) => ProducerKeeps(s, step);
    case PublishTail => ProducerKeeps(s, step);
    case CountUp => ProducerKeeps(s, step);
    case Clear => ClearKeeps(s);
    case _ => ConsumerKeeps(s, step);
  }

  lemma {:induction false} RunKeeps(block: seq<byte>, steps: seq<Step>)
    requires 0 < |block|
    ensures Inv(Run(block, steps)) && |Run(block, steps).block| == |block|
  {
    if steps == [] {
      assert Unread(Start(block)) == [];
    } else {
      RunKeeps(block, steps[..|steps| - 1]);
      StepKeeps(Run(block, steps[..|steps| - 1]), steps[|steps| - 1]);
      SizeKept(Run(block, steps[..|steps| - 1]), steps[|steps| - 1]);
    }
  }

  /** Safety: whatever the schedule, the payloads handed out are the first ones sent, byte for byte and in order;
      no check of the reader ever fails, and a reader past the gate never meets an empty queue. */
  lemma DeliveredIsPrefix(block: seq<byte>, steps: seq<Step>)
    requires 0 < |block|
    ensures var s := Run(block, steps);
            && s.delivered <= s.sent && |s.delivered| <= s.taken <= |s.sent|
            && !s.broken && !s.deceived
  {
    RunKeeps(block, steps);
  }

  /** The producer never stores into a byte of a frame that is still to be read, not even under a stale head. */
  lemma StoresMissUnread(block: seq<byte>, steps: seq<Step>, k: nat)
    requires 0 < |block|
    requires var s := Run(block, steps); s.producer.Writing? && k in s.producer.pending
    ensures var s, s' := Run(block, steps), Next(Run(block, steps), WriteByte(k));
            && s.taken <= |s.sent| && 0 <= s.head <= |block| && |Frames(Unread(s))| < |block| == |s.block| == |s'.block|
            && Window(s'.block, s.head, |Frames(Unread(s))|) == Window(s.block, s.head, |Frames(Unread(s))|)
                                                       == Frames(Unread(s))
            && s'.producer.pending == s.producer.pending - {k}
  {
    RunKeeps(block, steps);
    var s := Run(block, steps);
    WriteByteKeeps(s, k);
    WriteByteMisses(s, k);
  }

  /** A reader that has counted down only fetches bytes of the oldest complete frame, whatever its snapshots. */
  lemma ReadsCompleteFrame(block: seq<byte>, steps: seq<Step>)
    requires 0 < |block|
    requires Run(block, steps).consumer.Heading? || Run(block, steps).consumer.Reading?
    ensures var s := Run(block, steps);
            && s.taken < |s.sent|
            && match s.consumer
               case Heading(_, h, _, _, _) =>
                 forall k: nat | k < MAGIC_LEN + HEAD_SIZE ::
                   Fetch(s, h, MAGIC_LEN + HEAD_SIZE, k) == (true, Frame(s.sent[s.taken])[k])
               case Reading(h, len, _) =>
                 && len == |s.sent[s.taken]| + MAGIC_LEN
                 && forall k: nat | k < len ::
                   Fetch(s, h, len, k) == (true, Frame(s.sent[s.taken])[MAGIC_LEN + HEAD_SIZE + k])
  {
    RunKeeps(block, steps);
    var s := Run(block, steps);
    OldestFrame(s);
    var m := s.sent[s.taken];
    if s.consumer.Heading? {
      forall k: nat | k < MAGIC_LEN + HEAD_SIZE
        ensures Fetch(s, s.consumer.h, MAGIC_LEN + HEAD_SIZE, k) == (true, Frame(m)[k])
      {
        FetchReadsFrame(s, s.consumer.h, MAGIC_LEN + HEAD_SIZE, k, Header(|m|));
      }
    } else {
      forall k: nat | k < s.consumer.len
        ensures Fetch(s, s.consumer.h, s.consumer.len, k) == (true, Frame(m)[MAGIC_LEN + HEAD_SIZE + k])
      {
        FetchReadsFrame(s, s.consumer.h, s.consumer.len, k, m + MAGIC);
      }
    }
  }

  lemma Account(s: State)
    requires Inv(s)
    ensures s.count + s.refused + (if s.producer.Published? then 1 else 0)
            + (if s.consumer.Heading? || s.consumer.Reading? then 1 else 0) == |Unread(s)|
    ensures OVERHEAD * s.count < |s.block|
  {
    assert s.count == Accounted(s) <= |Unread(s)|;
    FramesCount(Unread(s));
  }

  /** The atomic count in every state of every run. */
  lemma CountIsAccounted(block: seq<byte>, steps: seq<Step>)
    requires 0 < |block|
    ensures var s := Run(block, steps);
            && s.taken <= |s.sent|
            && 0 <= s.count
            && s.count + s.refused + (if s.producer.Published? then 1 else 0)
               + (if s.consumer.Heading? || s.consumer.Reading? then 1 else 0) == |Unread(s)|
            && OVERHEAD * s.count < |block|
  {
    RunKeeps(block, steps);
    Account(Run(block, steps));
  }

  /** Passing the gate is a promise: the tail read that follows finds the cursors apart. */
  lemma GateIsHonest(block: seq<byte>, steps: seq<Step>)
    requires 0 < |block| && Run(block, steps).consumer.TookHead?
    ensures Run(block, steps + [TakeTail]).consumer.TookCursors?
  {
    RunKeeps(block, steps);
    TakeTailKeeps(Run(block, steps));
    assert (steps + [TakeTail])[..|steps|] == steps;
  }

  // ------------------------------------------------------------- the consumer waits for nobody

  function After(s: State, steps: seq<Step>): State
    decreases |steps|
  {
    if steps == [] then s else After(Next(s, steps[0]), steps[1..])
  }

  lemma {:induction false} AfterAppend(s: State, a: seq<Step>, b: seq<Step>)
    ensures After(s, a + b) == After(After(s, a), b)
    decreases |a|
  {
    if a == [] {
      assert a + b == b;
    } else {
      assert (a + b)[0] == a[0] && (a + b)[1..] == a[1..] + b;
      AfterAppend(Next(s, a[0]), a[1..], b);
    }
  }

  datatype Side = ProducerSide | ConsumerSide

  /** The steps that a side takes by itself. */
  predicate Own(side: Side, step: Step) {
    var sends := step.ReadHead? || step.ReadTail? || step.WriteByte? || step.PublishTail? || step.CountUp?;
    if side.ProducerSide? then sends else !sends && !step.Clear?
  }

  ghost predicate AllOwn(side: Side, steps: seq<Step>) {
    forall i | 0 <= i < |steps| :: Own(side, steps[i])
  }

  /** One side alone can bring `s` to `s'`. */
  ghost predicate Reaches(side: Side, s: State, s': State) {
    exists steps :: AllOwn(side, steps) && After(s, steps) == s'
  }

  lemma ReachesNext(side: Side, s: State, step: Step)
    requires Own(side, step)
    ensures Reaches(side, s, Next(s, step))
  {
    assert AllOwn(side, [step]) && [step][1..] == [];
    assert After(s, [step]) == Next(s, step);
  }

  lemma ReachesOn(side: Side, s: State, s1: State, s2: State)
    requires Reaches(side, s, s1) && Reaches(side, s1, s2)
    ensures Reaches(side, s, s2)
  {
    var a :| AllOwn(side, a) && After(s, a) == s1;
    var b :| AllOwn(side, b) && After(s1, b) == s2;
    AfterAppend(s, a, b);
    assert AllOwn(side, a + b);
  }

  ghost predicate ReadUpTo(got: map<nat, byte>, k: nat) {
    forall j: nat :: j in got <==> j < k
  }

  lemma HeaderByte(s: State, k: nat) returns (s': State)
    requires Inv(s) && s.consumer.Heading? && ReadUpTo(s.consumer.got, k) && k < MAGIC_LEN + HEAD_SIZE
    ensures Reaches(ConsumerSide, s, s') && Inv(s') && s'.consumer.Heading? && ReadUpTo(s'.consumer.got, k + 1)
    ensures s' == s.(consumer := WithGot(s.consumer, s'.consumer.got))
  {
    ReadHeaderByteKeeps(s, k);
    ReachesNext(ConsumerSide, s, ReadHeaderByte(k));
    s' := Next(s, ReadHeaderByte(k));
  }

  lemma BodyByte(s: State, k: nat) returns (s': State)
    requires Inv(s) && s.consumer.Reading? && ReadUpTo(s.consumer.got, k) && k < s.consumer.len
    ensures Reaches(ConsumerSide, s, s') && Inv(s') && s'.consumer.Reading? && ReadUpTo(s'.consumer.got, k + 1)
    ensures s' == s.(consumer := WithGot(s.consumer, s'.consumer.got))
  {
    ReadBodyByteKeeps(s, k);
    ReachesNext(ConsumerSide, s, ReadBodyByte(k));
    s' := Next(s, ReadBodyByte(k));
  }

  lemma HeaderSweep(s: State) returns (s': State)
    requires Inv(s) && s.consumer.Heading? && s.consumer.got == map[]
    ensures Reaches(ConsumerSide, s, s') && Inv(s') && s'.consumer.Heading? && Whole(s'.consumer.got, MAGIC_LEN + HEAD_SIZE)
    ensures s' == s.(consumer := WithGot(s.consumer, s'.consumer.got))
  {
    s' := s;
    ReachesSelf(ConsumerSide, s);
    for k := 0 to MAGIC_LEN + HEAD_SIZE
      invariant Reaches(ConsumerSide, s, s') && Inv(s') && s'.consumer.Heading? && ReadUpTo(s'.consumer.got, k)
      invariant s' == s.(consumer := WithGot(s.consumer, s'.consumer.got))
    {
      var next := HeaderByte(s', k);
      ReachesOn(ConsumerSide, s, s', next);
      s' := next;
    }
  }

  lemma BodySweep(s: State) returns (s': State)
    requires Inv(s) && s.consumer.Reading? && s.consumer.got == map[]
    ensures Reaches(ConsumerSide, s, s') && Inv(s') && s'.consumer.Reading? && Whole(s'.consumer.got, s.consumer.len)
    ensures s' == s.(consumer := WithGot(s.consumer, s'.consumer.got))
  {
    s' := s;
    ReachesSelf(ConsumerSide, s);
    for k := 0 to s.consumer.len
      invariant Reaches(ConsumerSide, s, s') && Inv(s') && s'.consumer.Reading? && ReadUpTo(s'.consumer.got, k)
      invariant s' == s.(consumer := WithGot(s.consumer, s'.consumer.got))
    {
      var next := BodyByte(s', k);
      ReachesOn(ConsumerSide, s, s', next);
      s' := next;
    }
  }

  lemma ReachesSelf(side: Side, s: State)
    ensures Reaches(side, s, s)
  {
    assert AllOwn(side, []) && After(s, []) == s;
  }

  lemma GateEntered(s: State, room: nat) returns (s': State)
    requires Inv(s) && s.consumer.Idle? && 0 < s.count
    ensures Reaches(ConsumerSide, s, s') && Inv(s') && s' == s.(consumer := TookHead(room, s.head))
  {
    var s1 := Next(s, Gate(room));
    s' := Next(s1, TakeHead);
    StepKeeps(s, Gate(room));
    StepKeeps(s1, TakeHead);
    ReachesNext(ConsumerSide, s, Gate(room));
    ReachesNext(ConsumerSide, s1, TakeHead);
    ReachesOn(ConsumerSide, s, s1, s');
  }

  lemma TailTaken(s: State) returns (s': State)
    requires Inv(s) && s.consumer.TookHead?
    ensures Reaches(ConsumerSide, s, s') && Inv(s') && s.taken < |s.sent|
    ensures s' == s.(consumer := TookCursors(s.consumer.room, s.head, s.tail, |s.sent|))
  {
    s' := Next(s, TakeTail);
    TakeTailKeeps(s);
    ReachesNext(ConsumerSide, s, TakeTail);
  }

  lemma CountedDown(s: State) returns (s': State)
    requires Inv(s) && s.consumer.TookCursors?
    ensures Reaches(ConsumerSide, s, s') && Inv(s')
    ensures var c := s.consumer; s' == s.(count := s.count - 1, consumer := Heading(c.room, c.h, c.t, c.seen, map[]))
  {
    s' := Next(s, CountDown);
    StepKeeps(s, CountDown);
    ReachesNext(ConsumerSide, s, CountDown);
  }

  lemma CursorsTaken(s: State) returns (s': State)
    requires Inv(s) && s.consumer.TookHead?
    ensures Reaches(ConsumerSide, s, s') && Inv(s') && s.taken < |s.sent|
    ensures s' == s.(count := s.count - 1, consumer := Heading(s.consumer.room, s.head, s.tail, |s.sent|, map[]))
  {
    var s1 := TailTaken(s);
    s' := CountedDown(s1);
    ReachesOn(ConsumerSide, s, s1, s');
  }

  /** Past the gate, with both cursors read and the count lowered. */
  lemma Admission(s: State, room: nat) returns (s': State)
    requires Inv(s) && s.consumer.Idle? && 0 < s.count
    ensures Reaches(ConsumerSide, s, s') && Inv(s') && s.taken < |s.sent|
    ensures s' == s.(count := s.count - 1, consumer := Heading(room, s.head, s.tail, |s.sent|, map[]))
  {
    var s1 := GateEntered(s, room);
    s' := CursorsTaken(s1);
    ReachesOn(ConsumerSide, s, s1, s');
  }

  lemma HeaderRead(s: State) returns (s': State)
    requires Inv(s) && s.consumer.Heading? && s.consumer.got == map[]
    requires s.consumer.room >= |s.sent[s.taken]| + MAGIC_LEN
    ensures Reaches(ConsumerSide, s, s') && Inv(s') && s'.consumer.Reading? && s'.consumer.got == map[]
    ensures s' == s.(consumer := s'.consumer)
  {
    var s1 := HeaderSweep(s);
    HeaderChecksPass(s1);
    CheckHeaderKeeps(s1);
    s' := Next(s1, CheckHeader);
    ReachesNext(ConsumerSide, s1, CheckHeader);
    ReachesOn(ConsumerSide, s, s1, s');
  }

  /** `s'` is `s` with the oldest message handed out. */
  ghost predicate HandedOut(s: State, s': State) {
    && Inv(s') && s'.consumer.Idle? && s'.producer == s.producer && s'.sent == s.sent && s'.count == s.count
    && s'.taken == s.taken + 1
  }

  lemma HeadPublished(s: State) returns (s': State)
    requires Inv(s) && s.consumer.Reading? && Whole(s.consumer.got, s.consumer.len)
    ensures Reaches(ConsumerSide, s, s') && Inv(s') && s'.consumer.Trailing?
    ensures s' == s.(head := s'.head, taken := s.taken + 1, consumer := s'.consumer)
  {
    s' := Next(s, PublishHead);
    PublishHeadKeeps(s);
    ReachesNext(ConsumerSide, s, PublishHead);
  }

  lemma TrailerChecked(s: State) returns (s': State)
    requires Inv(s) && s.consumer.Trailing?
    ensures Reaches(ConsumerSide, s, s') && Inv(s')
    ensures s' == s.(consumer := Idle, delivered := s'.delivered)
  {
    s' := Next(s, CheckTrailer);
    CheckTrailerKeeps(s);
    ReachesNext(ConsumerSide, s, CheckTrailer);
  }

  lemma Publication(s: State) returns (s': State)
    requires Inv(s) && s.consumer.Reading? && Whole(s.consumer.got, s.consumer.len)
    ensures Reaches(ConsumerSide, s, s') && HandedOut(s, s')
  {
    var s1 := HeadPublished(s);
    s' := TrailerChecked(s1);
    ReachesOn(ConsumerSide, s, s1, s');
  }

  lemma BodyRead(s: State) returns (s': State)
    requires Inv(s) && s.consumer.Reading? && s.consumer.got == map[]
    ensures Reaches(ConsumerSide, s, s') && HandedOut(s, s')
  {
    var s1 := BodySweep(s);
    s' := Publication(s1);
    ReachesOn(ConsumerSide, s, s1, s');
  }

  /** With a message counted and room for it, the consumer's own steps hand out the oldest one,
      wherever the producer happens to stand. */
  lemma ConsumerWaitsForNobody(s: State, room: nat) returns (s': State)
    requires Inv(s) && s.consumer.Idle? && 0 < s.count
    requires s.taken < |s.sent| ==> room >= |s.sent[s.taken]| + MAGIC_LEN
    ensures Reaches(ConsumerSide, s, s') && Inv(s') && s'.consumer.Idle? && s'.producer == s.producer && s'.sent == s.sent
    ensures s.taken < |s.sent| && s'.delivered == s.delivered + [s.sent[s.taken]] && s'.count == s.count - 1
  {
    var s1 := Admission(s, room);
    var s2 := HeaderRead(s1);
    s' := BodyRead(s2);
    ReachesOn(ConsumerSide, s, s1, s2);
    ReachesOn(ConsumerSide, s, s2, s');
    assert s.sent[..s.taken + 1] == s.sent[..s.taken] + [s.sent[s.taken]];
  }

  // ------------------------------------------------------------- neither does the producer

  /** The read of the tail decides by the room behind the snapshot of the head, and by nothing else. */
  lemma ReadTailDecides(s: State)
    requires Inv(s) && s.producer.SawHead?
    ensures var s' := Next(s, ReadTail);
            && s' == s.(producer := s'.producer)
            && (if |Frames(s.sent[s.producer.at..])| + |s.producer.data| + 12 < |s.block|
                then s'.producer.Writing? && s'.producer.data == s.producer.data
                else s'.producer.Waiting?)
  {
    Lengths(s.producer.h, |Frames(s.sent[s.producer.at..])|, |s.block|);
    StaleHeadFits(s);
  }

  lemma WriteStarted(s: State, data: Message) returns (s': State)
    requires Inv(s) && s.producer.Waiting? && |Frames(Unread(s))| + |data| + 12 < |s.block|
    ensures Reaches(ProducerSide, s, s') && Inv(s') && s' == s.(producer := s'.producer)
    ensures s'.producer.Writing? && s'.producer.data == data
  {
    var s1 := Next(s, ReadHead(data));
    s' := Next(s1, ReadTail);
    StepKeeps(s, ReadHead(data));
    ReadTailDecides(s1);
    StepKeeps(s1, ReadTail);
    ReachesNext(ProducerSide, s, ReadHead(data));
    ReachesNext(ProducerSide, s1, ReadTail);
    ReachesOn(ProducerSide, s, s1, s');
  }

  /** What a producer in the middle of its copy may have changed so far. */
  ghost predicate CopyGoesOn(s: State, s': State) {
    && s.producer.Writing? && s'.producer.Writing? && s'.producer.data == s.producer.data
    && s' == s.(block := s'.block, producer := s'.producer) && |s'.block| == |s.block|
  }

  lemma ByteWritten(s: State, k: nat) returns (s': State)
    requires Inv(s) && s.producer.Writing? && k in s.producer.pending
    ensures Reaches(ProducerSide, s, s') && Inv(s') && CopyGoesOn(s, s')
    ensures s'.producer.pending == s.producer.pending - {k}
  {
    s' := Next(s, WriteByte(k));
    WriteByteMisses(s, k);
    WriteByteKeeps(s, k);
    ReachesNext(ProducerSide, s, WriteByte(k));
  }

  lemma CopySweep(s: State) returns (s': State)
    requires Inv(s) && s.producer.Writing?
    ensures Reaches(ProducerSide, s, s') && Inv(s') && CopyGoesOn(s, s') && s'.producer.pending == {}
  {
    var n := |Frame(s.producer.data)|;
    s' := s;
    ReachesSelf(ProducerSide, s);
    for k := 0 to n
      invariant Reaches(ProducerSide, s, s') && Inv(s') && CopyGoesOn(s, s')
      invariant forall j | j in s'.producer.pending :: k <= j < n
    {
      if k in s'.producer.pending {
        var next := ByteWritten(s', k);
        ReachesOn(ProducerSide, s, s', next);
        s' := next;
      }
    }
  }

  lemma FramePublished(s: State) returns (s': State)
    requires Inv(s) && s.producer.Writing? && s.producer.pending == {}
    ensures Reaches(ProducerSide, s, s') && Inv(s') && s'.producer.Waiting?
    ensures s' == s.(tail := s'.tail, count := s.count + 1, sent := s.sent + [s.producer.data], producer := Waiting)
  {
    var s1 := Next(s, PublishTail);
    s' := Next(s1, CountUp);
    PublishTailKeeps(s);
    CountUpKeeps(s1);
    ReachesNext(ProducerSide, s, PublishTail);
    ReachesNext(ProducerSide, s1, CountUp);
    ReachesOn(ProducerSide, s, s1, s');
  }

  /** With room for its frame, the producer's own steps send and count a message, wherever the consumer happens
      to stand. */
  lemma ProducerWaitsForNobody(s: State, data: Message) returns (s': State)
    requires Inv(s) && s.producer.Waiting? && |Frames(Unread(s))| + |data| + 12 < |s.block|
    ensures Reaches(ProducerSide, s, s') && Inv(s') && s'.producer.Waiting?
    ensures s'.sent == s.sent + [data] && s'.count == s.count + 1
    ensures s' == s.(block := s'.block, tail := s'.tail, count := s'.count, sent := s'.sent)
  {
    var s1 := WriteStarted(s, data);
    var s2 := CopySweep(s1);
    s' := FramePublished(s2);
    ReachesOn(ProducerSide, s, s1, s2);
    ReachesOn(ProducerSide, s, s2, s');
  }

  /** From the start, a message that the block can hold is sent and then delivered, and so is every one that follows. */
  lemma SentIsDelivered(s: State, data: Message, room: nat) returns (s1: State, s2: State)
    requires Inv(s) && s.producer.Waiting? && s.consumer.Idle? && s.taken == |s.sent|
    requires |data| + 12 < |s.block| && room >= |data| + 4
    ensures Reaches(ProducerSide, s, s1) && Reaches(ConsumerSide, s1, s2)
    ensures Inv(s2) && s2.producer.Waiting? && s2.consumer.Idle? && s2.taken == |s2.sent|
    ensures s2.sent == s.sent + [data] && s2.delivered == s.delivered + [data]
  {
    assert Unread(s) == [];
    s1 := ProducerWaitsForNobody(s, data);
    s2 := ConsumerWaitsForNobody(s1, room);
    assert Unread(s2) == [];
  }

  /** Clearing a queue at rest empties it, and at any other moment does nothing. */
  lemma ClearEmpties(s: State)
    ensures var s' := Next(s, Clear);
            if s.producer.Waiting? && s.consumer.Idle? then
              && s'.head == 0 && s'.tail == 0 && s'.count == 0 && s'.refused == 0
              && s'.sent == [] && s'.delivered == [] && s'.taken == 0 && s'.block == s.block
            else s' == s
  {
  }
}
