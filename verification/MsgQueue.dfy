/**
 The shared-memory message queue as one process sees it: a FIFO of byte strings in a
 circular block, written by three layouts and read back by a reader of another shape.
 */
module MsgQueue {
  import opened Bytes
  import opened ErrorCodes
  import opened Ring

  /** What a 32-bit atomic counter holds. */
  function ToInt32(n: int): (w: int)
    ensures -0x8000_0000 <= n < 0x8000_0000 ==> w == n
  {
    (n + 0x8000_0000) % 0x1_0000_0000 - 0x8000_0000
  }

  lemma Int32Step(n: int, d: int)
    ensures ToInt32(ToInt32(n) + d) == ToInt32(n + d)
  {
    assert ToInt32(n) + d + 0x8000_0000 == n + d + 0x8000_0000 - (n + 0x8000_0000) / 0x1_0000_0000 * 0x1_0000_0000;
  }

  class ShmMQ {
    const block: array<byte>
    const blockSize: nat
    var head: uint32
    var tail: uint32
    var msgCount: int
    var processCount: int

    /** The queued messages, oldest first, and how often a reader was refused since the queue was last cleared. */
    ghost var contents: seq<Message>
    ghost var refused: nat

    ghost predicate Valid()
      reads this, block
    {
      && block.Length == blockSize < 0x8000_0000
      && Stored(block[..], head, tail, contents)
      && msgCount == ToInt32(|contents| - refused)
    }

    constructor (blockSize: nat)
      requires 0 < blockSize < 0x8000_0000
      ensures Valid() && fresh(block) && this.blockSize == blockSize
      ensures contents == [] && refused == 0 && processCount == 0
    {
      block := new byte[blockSize](_ => 0);
      this.blockSize := blockSize;
      head, tail, msgCount, processCount := 0, 0, 0, 0;
      contents, refused := [], 0;
    }

    method ClearMQ()
      requires block.Length == blockSize < 0x8000_0000 && 0 < blockSize
      modifies this
      ensures Valid() && contents == [] && refused == 0 && processCount == old(processCount)
    {
      head, tail := 0, 0;
      msgCount := 0;
      contents, refused := [], 0;
    }

    /** Cursors beyond the block clear the queue, unless another live process is at that already. */
    method Check(h: uint32, t: uint32, clearing: bool) returns (ok: bool)
      requires block.Length == blockSize < 0x8000_0000 && 0 < blockSize
      modifies this
      ensures ok <==> h <= blockSize && t <= blockSize
      ensures ok || clearing ==> unchanged(this)
      ensures !ok && !clearing ==> Valid() && contents == [] && refused == 0
    {
      if h <= blockSize && t <= blockSize {
        return true;
      }
      if !clearing {
        ClearMQ();
      }
      return false;
    }

    method GetStat() returns (usedLen: int, freeLen: int, totalLen: int)
      requires Valid()
      ensures usedLen == |Frames(contents)| && usedLen + freeLen == totalLen == blockSize
    {
      Lengths(head, |Frames(contents)|, blockSize);
      usedLen := if tail >= head then tail - head else tail + blockSize - head;
      freeLen := if head > tail then head - tail else head + blockSize - tail;
      totalLen := blockSize;
    }

    // ------------------------------------------------------------ writing

    method Blit(at: nat, bytes: seq<byte>)
      requires at + |bytes| <= block.Length
      modifies block
      ensures forall p | 0 <= p < block.Length ::
                block[p] == if at <= p < at + |bytes| then bytes[p - at] else old(block[p])
    {
      forall j | 0 <= j < |bytes| {
        block[at + j] := bytes[j];
      }
    }

    /** The whole frame fits before the end of the block. */
    method WriteStraight(t: nat, data: Message)
      requires t + |data| + OVERHEAD <= block.Length
      modifies block
      ensures Written(old(block[..]), t, Frame(data), block[..])
    {
      Blit(t, Header(|data|));
      Blit(t + MAGIC_LEN + HEAD_SIZE, data);
      Blit(t + MAGIC_LEN + HEAD_SIZE + |data|, MAGIC);
    }

    /** The header fits and the rest is split, the trailing magic still whole. */
    method WriteSplitBody(t: nat, data: Message)
      requires t <= block.Length && MAGIC_LEN + HEAD_SIZE <= block.Length - t <= |data| + HEAD_SIZE + MAGIC_LEN
      requires |data| + OVERHEAD < block.Length
      modifies block
      ensures Written(old(block[..]), t, Frame(data), block[..])
    {
      var firstLen := block.Length - t - MAGIC_LEN - HEAD_SIZE;
      var secondLen := |data| + MAGIC_LEN - firstLen;
      Blit(t, Header(|data|));
      Blit(t + MAGIC_LEN + HEAD_SIZE, data[..firstLen]);
      Blit(0, data[firstLen..]);
      Blit(secondLen - MAGIC_LEN, MAGIC);
    }

    /** Header and payload fit, the trailing magic is split and written byte by byte. */
    method WriteSplitMagic(t: nat, data: Message)
      requires t <= block.Length && |data| + HEAD_SIZE + MAGIC_LEN < block.Length - t < |data| + OVERHEAD < block.Length
      modifies block
      ensures Written(old(block[..]), t, Frame(data), block[..])
    {
      var blockSize := block.Length;
      var secondLen := |data| + OVERHEAD - (blockSize - t);
      Blit(t, Header(|data|));
      Blit(t + MAGIC_LEN + HEAD_SIZE, data);
      BlitMagic(secondLen);
    }

    /** The four bytes of the magic, `secondLen` of them at the start of the block. */
    method BlitMagic(secondLen: nat)
      requires 1 <= secondLen <= 3 && OVERHEAD < block.Length
      modifies block
      ensures forall p | 0 <= p < block.Length ::
                block[p] == var q := p - (block.Length - MAGIC_LEN + secondLen);
                            if q >= 0 then MAGIC[q] else if p < secondLen then MAGIC[MAGIC_LEN - secondLen + p] else old(block[p])
    {
      var blockSize := block.Length;
      if secondLen == 3 {
        block[blockSize - 1] := 'S' as int;
        block[0] := 'P' as int;
        block[1] := 'P' as int;
        block[2] := 'X' as int;
      } else if secondLen == 2 {
        block[blockSize - 2] := 'S' as int;
        block[blockSize - 1] := 'P' as int;
        block[0] := 'P' as int;
        block[1] := 'X' as int;
      } else if secondLen == 1 {
        block[blockSize - 3] := 'S' as int;
        block[blockSize - 2] := 'P' as int;
        block[blockSize - 1] := 'P' as int;
        block[0] := 'X' as int;
      }
    }

    /** The header itself is split. */
    method WriteSplitHead(t: nat, data: Message)
      requires t <= block.Length && block.Length - t < MAGIC_LEN + HEAD_SIZE && |data| + OVERHEAD < block.Length
      modifies block
      ensures Written(old(block[..]), t, Frame(data), block[..])
    {
      var tailLen := block.Length - t;
      var psHead := Header(|data|);
      Blit(t, psHead[..tailLen]);
      var secondLen := MAGIC_LEN + HEAD_SIZE - tailLen;
      Blit(0, psHead[tailLen..]);
      Blit(secondLen, data);
      Blit(secondLen + |data|, MAGIC);
    }

    /** Writes a frame at cursor `t` in the layout that the room before the end of the block calls for. */
    method WriteFrame(t: nat, data: Message) returns (newTail: nat)
      requires block.Length == blockSize && t <= blockSize && |data| + OVERHEAD < blockSize
      modifies block
      ensures Written(old(block[..]), t, Frame(data), block[..])
      ensures newTail == Advance(t, |Frame(data)|, blockSize)
    {
      var tailLen := blockSize - t;
      var totalLen := |data| + HEAD_SIZE + 2 * MAGIC_LEN;
      if tailLen >= totalLen {
        WriteStraight(t, data);
        newTail := t + (|data| + HEAD_SIZE + MAGIC_LEN * 2);
      } else if tailLen >= HEAD_SIZE + MAGIC_LEN && tailLen < HEAD_SIZE + 2 * MAGIC_LEN + |data| {
        var firstLen := tailLen - MAGIC_LEN - HEAD_SIZE;
        var secondLen := |data| + MAGIC_LEN - firstLen;
        if secondLen >= MAGIC_LEN {
          WriteSplitBody(t, data);
        } else {
          WriteSplitMagic(t, data);
        }
        newTail := t + (totalLen - blockSize);
      } else {
        WriteSplitHead(t, data);
        newTail := MAGIC_LEN + HEAD_SIZE - tailLen + |data| + MAGIC_LEN;
      }
    }

    method Enqueue(data: Message) returns (r: ErrorCode)
      requires Valid()
      modifies this, block
      ensures Valid() && refused == old(refused) && processCount == old(processCount)
      ensures r == if |Frames(old(contents))| + |data| + OVERHEAD < blockSize then Ok else NotEnoughSpace
      ensures contents == if r.Ok? then old(contents) + [data] else old(contents)
    {
      var h, t := head, tail;
      Lengths(h, |Frames(contents)|, blockSize);
      var clearing: bool := *;
      var ok := Check(h, t, clearing);
      if !ok {
        assert false;
      }
      var freeLen := if h > t then h - t else h + blockSize - t;
      var totalLen := |data| + HEAD_SIZE + 2 * MAGIC_LEN;
      if freeLen <= totalLen {
        return NotEnoughSpace;
      }
      ghost var before := block[..];
      tail := WriteFrame(t, data);
      StoredAppend(before, h, t, contents, data, block[..]);
      Int32Step(|contents| - refused, 1);
      contents := contents + [data];
      msgCount := ToInt32(msgCount + 1);
      return Ok;
    }

    // ------------------------------------------------------------ reading

    /** The `n` bytes behind cursor `h`, in one piece or in two, and the cursor behind them. */
    method ReadBlock(h: nat, n: nat) returns (bytes: seq<byte>, newHead: nat)
      requires block.Length == blockSize && h <= blockSize && n < blockSize
      ensures bytes == Window(block[..], h, n) && newHead == Advance(h, n, blockSize)
    {
      WindowPieces(block[..], h, n);
      if h + n > blockSize {
        var firstSize := blockSize - h;
        var secondSize := n - firstSize;
        bytes := block[h..h + firstSize] + block[..secondSize];
        assert block[h..h + firstSize] == block[..][h..] && block[..secondSize] == block[..][..secondSize];
        newHead := secondSize;
      } else {
        bytes := block[h..h + n];
        newHead := h + n;
      }
    }

    /** Copies payload and trailing magic from behind cursor `h` into the reader's buffer. */
    method CopyOut(h: nat, n: nat, buf: array<byte>, ghost m: Message) returns (newHead: nat)
      requires block.Length == blockSize && h <= blockSize && n == |m| + MAGIC_LEN < blockSize
      requires Window(block[..], h, n) == m + MAGIC
      requires n <= buf.Length && buf != block
      modifies buf
      ensures buf[..|m|] == m && buf[|m|..n] == MAGIC && newHead == Advance(h, n, blockSize)
    {
      var bytes, next := ReadBlock(h, n);
      forall j | 0 <= j < n {
        buf[j] := bytes[j];
      }
      assert buf[..n] == bytes;
      assert buf[..n][..|m|] == m && buf[..n][|m|..] == MAGIC;
      newHead := next;
    }

    /** Reads the header behind the head and checks it against the used length. */
    method ReadHeader(h: nat, t: nat, ghost m: Message) returns (dataLen: nat, newHead: nat)
      requires block.Length == blockSize && h <= blockSize && t <= blockSize && h != t
      requires |Frame(m)| < blockSize && Window(block[..], h, |Frame(m)|) == Frame(m)
      requires |Frame(m)| <= UsedLen(h, t, blockSize)
      ensures dataLen == |m| + MAGIC_LEN && newHead == Advance(h, MAGIC_LEN + HEAD_SIZE, blockSize)
    {
      FrameParts(block[..], h, m);
      var usedLen := if t > h then t - h else t + blockSize - h;
      var psHead, next := ReadBlock(h, MAGIC_LEN + HEAD_SIZE);
      var totalLen := DecodeLE32(psHead[MAGIC_LEN..]);
      if psHead[..MAGIC_LEN] != MAGIC {
        assert false;
      }
      if totalLen > usedLen {
        assert false;
      }
      return totalLen - HEAD_SIZE - MAGIC_LEN, next;
    }

    /** What a reader does that has found the cursors apart. */
    method TakeOldest(h: nat, t: nat, buf: array<byte>) returns (r: ErrorCode, dataLen: nat)
      requires Valid() && buf != block && h == head && t == tail && contents != []
      modifies this, buf
      ensures Valid()
      ensures buf.Length < |old(contents)[0]| + MAGIC_LEN ==>
                && r == InputBufNotEnoughSpace && dataLen == |old(contents)[0]| + MAGIC_LEN
                && contents == old(contents) && refused == old(refused) + 1
                && buf[..] == old(buf[..]) && processCount == old(processCount)
      ensures buf.Length >= |old(contents)[0]| + MAGIC_LEN ==>
                && r == Ok && dataLen == |old(contents)[0]| && buf[..dataLen] == old(contents)[0]
                && contents == old(contents)[1..] && refused == old(refused)
                && processCount == ToInt32(old(processCount) + 1)
    {
      Int32Step(|contents| - refused, -1);
      msgCount := ToInt32(msgCount - 1);
      ghost var m := contents[0];
      FirstFrame(block[..], h, t, contents);
      var need, h8 := ReadHeader(h, t, m);
      if need > buf.Length {
        refused := refused + 1;
        return InputBufNotEnoughSpace, need;
      }
      head := CopyOut(h8, need, buf, m);
      contents := contents[1..];
      dataLen := need - MAGIC_LEN;
      if buf[dataLen..dataLen + MAGIC_LEN] != MAGIC {
        assert false;
      }
      processCount := ToInt32(processCount + 1);
      return Ok, dataLen;
    }

    /** Takes the oldest message. The buffer must have room for the payload and its trailing magic;
        a refusal has by then lowered the message count all the same. */
    method Dequeue(buf: array<byte>) returns (r: ErrorCode, dataLen: nat)
      requires Valid() && buf != block
      modifies this, buf
      ensures Valid()
      ensures old(contents) == [] ==> r == MQEmpty && dataLen == 0 && contents == [] && refused == old(refused)
      ensures old(contents) != [] && buf.Length < |old(contents)[0]| + MAGIC_LEN ==>
                && r == InputBufNotEnoughSpace && dataLen == |old(contents)[0]| + MAGIC_LEN
                && contents == old(contents) && refused == old(refused) + 1
      ensures old(contents) != [] && buf.Length >= |old(contents)[0]| + MAGIC_LEN ==>
                && r == Ok && dataLen == |old(contents)[0]| && buf[..dataLen] == old(contents)[0]
                && contents == old(contents)[1..] && refused == old(refused)
      ensures !r.Ok? ==> buf[..] == old(buf[..])
      ensures processCount == if r.Ok? then ToInt32(old(processCount) + 1) else old(processCount)
    {
      var h, t := head, tail;
      Lengths(h, |Frames(contents)|, blockSize);
      var clearing: bool := *;
      var ok := Check(h, t, clearing);
      if !ok {
        assert false;
      }
      if h == t {
        return MQEmpty, 0;
      }
      r, dataLen := TakeOldest(h, t, buf);
    }

    /** Reads through the message count. A queue whose count was lowered by as many refusals as it
        holds messages is reported empty although it is not. */
    method Consume(buf: array<byte>) returns (r: ErrorCode, dataLen: nat)
      requires Valid() && buf != block && refused <= |contents|
      modifies this, buf
      ensures Valid()
      ensures (r, Queue(contents, refused)) == Received(Queue(old(contents), old(refused)), buf.Length)
      ensures r == MQEmpty <==> old(refused) == |old(contents)|
      ensures old(refused) < |old(contents)| ==> (r == Ok <==> buf.Length >= |old(contents)[0]| + 4)
      ensures r == Ok ==> dataLen == |old(contents)[0]| && buf[..dataLen] == old(contents)[0]
                          && contents == old(contents)[1..] && refused == old(refused)
      ensures r == InputBufNotEnoughSpace ==> dataLen == |old(contents)[0]| + 4
                                              && contents == old(contents) && refused == old(refused) + 1
      ensures r == MQEmpty ==> dataLen == 0 && contents == old(contents) && refused == old(refused)
      ensures r == Ok || r == InputBufNotEnoughSpace || r == MQEmpty
      ensures r == MQEmpty || r == InputBufNotEnoughSpace ==> buf[..] == old(buf[..])
    {
      FramesCount(contents);
      if msgCount == 0 {
        return MQEmpty, 0;
      }
      r, dataLen := Dequeue(buf);
    }
  }

  // -------------------------------------------------------------- whole runs

  /** The abstract queue: what it holds, and by how much refusals have lowered its count. */
  datatype Queue = Queue(contents: seq<Message>, refused: nat)

  /** What one pass through the gate yields with a buffer of `room` bytes. */
  function Received(q: Queue, room: nat): (ErrorCode, Queue) {
    if |q.contents| <= q.refused then (MQEmpty, q)
    else if room < |q.contents[0]| + MAGIC_LEN then (InputBufNotEnoughSpace, q.(refused := q.refused + 1))
    else (Ok, q.(contents := q.contents[1..]))
  }

  datatype QueueOp = Send(data: Message) | Receive(room: nat) | Clear

  function Step(blockSize: nat, q: Queue, op: QueueOp): (ErrorCode, Queue) {
    match op
    case Send(data) =>
      if |Frames(q.contents)| + |data| + OVERHEAD < blockSize then (Ok, q.(contents := q.contents + [data]))
      else (NotEnoughSpace, q)
    case Receive(room) => Received(q, room)
    case Clear => (Ok, Queue([], 0))
  }

  /** The queue after a run. */
  function Run(blockSize: nat, ops: seq<QueueOp>): Queue {
    if ops == [] then Queue([], 0)
    else Step(blockSize, Run(blockSize, ops[..|ops| - 1]), ops[|ops| - 1]).1
  }

  /** The messages that the queue took since it was last cleared. */
  function Sent(blockSize: nat, ops: seq<QueueOp>): seq<Message> {
    if ops == [] then []
    else
      var before, op := ops[..|ops| - 1], ops[|ops| - 1];
      if op.Clear? then []
      else if op.Send? && Step(blockSize, Run(blockSize, before), op).0 == Ok then Sent(blockSize, before) + [op.data]
      else Sent(blockSize, before)
  }

  /** The messages that it handed out since. */
  function Delivered(blockSize: nat, ops: seq<QueueOp>): seq<Message> {
    if ops == [] then []
    else
      var before, op := ops[..|ops| - 1], ops[|ops| - 1];
      var q := Run(blockSize, before);
      if op.Clear? then []
      else if op.Receive? && Step(blockSize, q, op).0 == Ok
      then Delivered(blockSize, before) + [q.contents[0]]
      else Delivered(blockSize, before)
  }

  lemma TakenFirst(d: seq<Message>, held: seq<Message>)
    requires held != []
    ensures d + held == d + [held[0]] + held[1..]
  {
  }

  /** A call appends what it accepts, hands out the oldest message, or changes neither. */
  ghost predicate Moves(q: Queue, op: QueueOp, code: ErrorCode, q': Queue) {
    match op
    case Send(data) => q' == if code == Ok then q.(contents := q.contents + [data]) else q
    case Receive(_) =>
      if code == Ok then q.contents != [] && q' == q.(contents := q.contents[1..])
      else q'.contents == q.contents
    case Clear => q' == Queue([], 0)
  }

  lemma StepMoves(blockSize: nat, q: Queue, op: QueueOp)
    requires q.refused <= |q.contents|
    ensures var (code, q') := Step(blockSize, q, op);
            Moves(q, op, code, q') && q'.refused <= |q'.contents|
  {
  }

  lemma {:induction false} RefusedBounded(blockSize: nat, ops: seq<QueueOp>)
    ensures Run(blockSize, ops).refused <= |Run(blockSize, ops).contents|
  {
    if ops != [] {
      RefusedBounded(blockSize, ops[..|ops| - 1]);
      StepMoves(blockSize, Run(blockSize, ops[..|ops| - 1]), ops[|ops| - 1]);
    }
  }

  /** What one call adds to either side of the account. */
  lemma FifoStep(sent: seq<Message>, d: seq<Message>, q: Queue, op: QueueOp, code: ErrorCode, q': Queue)
    requires sent == d + q.contents && Moves(q, op, code, q') && !op.Clear?
    ensures (if op.Send? && code == Ok then sent + [op.data] else sent)
         == (if op.Receive? && code == Ok then d + [q.contents[0]] else d) + q'.contents
  {
    if op.Receive? && code == Ok {
      TakenFirst(d, q.contents);
    }
  }

  /** First in, first out, over every run: what was sent is what was delivered and then what is queued,
      and the count never falls below zero. */
  lemma {:induction false} RunIsFifo(blockSize: nat, ops: seq<QueueOp>)
    ensures Sent(blockSize, ops) == Delivered(blockSize, ops) + Run(blockSize, ops).contents
    ensures Run(blockSize, ops).refused <= |Run(blockSize, ops).contents|
  {
    RefusedBounded(blockSize, ops);
    if ops != [] {
      var before, op := ops[..|ops| - 1], ops[|ops| - 1];
      RunIsFifo(blockSize, before);
      var q := Run(blockSize, before);
      if !op.Clear? {
        var (code, q') := Step(blockSize, q, op);
        StepMoves(blockSize, q, op);
        FifoStep(Sent(blockSize, before), Delivered(blockSize, before), q, op, code, q');
      }
    }
  }

  /** Over every run, whatever its room, a reader is told that the queue is empty exactly when as many messages
      were refused since the last clear as the queue holds; and it goes on being told so until another is sent. */
  lemma EmptyIffRefused(blockSize: nat, ops: seq<QueueOp>, room: nat)
    ensures var q := Run(blockSize, ops);
            && (Received(q, room).0 == MQEmpty <==> q.refused == |q.contents|)
            && (q.refused == |q.contents| ==> Received(q, room).1 == q)
  {
    RunIsFifo(blockSize, ops);
  }

  /** What is out of reach stays so over any number of attempts. */
  lemma {:induction false} OutOfReach(blockSize: nat, ops: seq<QueueOp>, more: seq<QueueOp>)
    requires var q := Run(blockSize, ops); q.refused == |q.contents|
    requires forall i | 0 <= i < |more| :: more[i].Receive?
    ensures Run(blockSize, ops + more) == Run(blockSize, ops)
  {
    if more == [] {
      assert ops + more == ops;
    } else {
      var n := |more| - 1;
      OutOfReach(blockSize, ops, more[..n]);
      assert (ops + more)[..|ops + more| - 1] == ops + more[..n];
    }
  }

  /** One message more brings the oldest one back. */
  lemma BackInReach(blockSize: nat, q: Queue, data: Message, room: nat)
    requires q.refused == |q.contents| && Step(blockSize, q, Send(data)).0 == Ok
    requires q.contents != [] ==> room >= |q.contents[0]| + MAGIC_LEN
    requires q.contents == [] ==> room >= |data| + MAGIC_LEN
    ensures var oldest := if q.contents == [] then data else q.contents[0];
            var (code, after) := Received(Step(blockSize, q, Send(data)).1, room);
            code == Ok && [oldest] + after.contents == q.contents + [data]
  {
  }

  /** A reader whose room always suffices is told that the queue is empty only when it is. */
  lemma {:induction false} RoomyRunIsExact(blockSize: nat, ops: seq<QueueOp>)
    requires 0 < blockSize && forall i | 0 <= i < |ops| :: ops[i].Receive? ==> ops[i].room >= blockSize
    ensures Run(blockSize, ops).refused == 0 && |Frames(Run(blockSize, ops).contents)| < blockSize
    ensures forall room: nat :: Received(Run(blockSize, ops), room).0 == MQEmpty <==> Run(blockSize, ops).contents == []
  {
    if ops != [] {
      var before := ops[..|ops| - 1];
      RoomyRunIsExact(blockSize, before);
      var q := Run(blockSize, before);
      match ops[|ops| - 1]
      case Send(data) => FramesAppend(q.contents, [data]); FramesOne(data);
      case Receive(room) =>
      case Clear =>
    }
  }

  /** One call; `payload` is what a reader finds in its buffer. */
  method Apply(mq: ShmMQ, op: QueueOp) returns (code: ErrorCode, payload: seq<byte>)
    requires mq.Valid() && mq.refused <= |mq.contents|
    modifies mq, mq.block
    ensures mq.Valid()
    ensures (code, Queue(mq.contents, mq.refused)) == Step(mq.blockSize, Queue(old(mq.contents), old(mq.refused)), op)
    ensures op.Receive? && code == Ok ==> old(mq.contents) != [] && payload == old(mq.contents)[0]
  {
    payload := [];
    match op
    case Send(data) => code := mq.Enqueue(data);
    case Receive(room) => {
      var buf := new byte[room](_ => 0);
      var dataLen;
      code, dataLen := mq.Consume(buf);
      if code == Ok {
        payload := buf[..dataLen];
      }
    }
    case Clear =>
      assert 0 < mq.blockSize;
      mq.ClearMQ();
      code := Ok;
  }

  /** What the calls of a run return. */
  function Codes(blockSize: nat, ops: seq<QueueOp>): seq<ErrorCode> {
    if ops == [] then []
    else
      var before, op := ops[..|ops| - 1], ops[|ops| - 1];
      Codes(blockSize, before) + [Step(blockSize, Run(blockSize, before), op).0]
  }

  /** The array-backed queue answers every run as the abstract one does; what it took and what readers found in
      their buffers since the last clear is what the abstract run says. */
  method Drive(blockSize: nat, ops: seq<QueueOp>)
    returns (codes: seq<ErrorCode>, taken: seq<seq<byte>>, found: seq<seq<byte>>, mq: ShmMQ)
    requires 0 < blockSize < 0x8000_0000
    ensures codes == Codes(blockSize, ops)
    ensures taken == Sent(blockSize, ops) && found == Delivered(blockSize, ops) && taken == found + mq.contents
    ensures mq.Valid() && Queue(mq.contents, mq.refused) == Run(blockSize, ops)
  {
    mq := new ShmMQ(blockSize);
    codes, taken, found := [], [], [];
    for i := 0 to |ops|
      invariant fresh(mq) && fresh(mq.block) && mq.Valid() && mq.blockSize == blockSize
      invariant codes == Codes(blockSize, ops[..i])
      invariant taken == Sent(blockSize, ops[..i]) && found == Delivered(blockSize, ops[..i])
      invariant Queue(mq.contents, mq.refused) == Run(blockSize, ops[..i])
    {
      RunIsFifo(blockSize, ops[..i]);
      assert ops[..i + 1][..i] == ops[..i];
      var code, payload := Apply(mq, ops[i]);
      codes := codes + [code];
      taken, found := Booked(taken, found, ops[i], code, payload);
    }
    assert ops[..|ops|] == ops;
    RunIsFifo(blockSize, ops);
  }

  /** The books of a client after one more call. */
  method Booked(taken: seq<seq<byte>>, found: seq<seq<byte>>, op: QueueOp, code: ErrorCode, payload: seq<byte>)
    returns (taken': seq<seq<byte>>, found': seq<seq<byte>>)
    ensures taken' == if op.Clear? then [] else if op.Send? && code == Ok then taken + [op.data] else taken
    ensures found' == if op.Clear? then [] else if op.Receive? && code == Ok then found + [payload] else found
  {
    if op.Clear? {
      return [], [];
    }
    taken', found' := taken, found;
    if code == Ok {
      if op.Send? {
        taken' := taken + [op.data];
      } else {
        found' := found + [payload];
      }
    }
  }

  /** A message out of reach: after one refusal the queue answers empty, even to a reader with ample room. */
  method Stranded(blockSize: nat, data: Message, small: nat, buf: array<byte>) returns (mq: ShmMQ, r: ErrorCode)
    requires |data| + OVERHEAD < blockSize < 0x8000_0000 && small < |data| + MAGIC_LEN <= buf.Length
    modifies buf
    ensures mq.Valid() && mq.contents == [data] && r == MQEmpty
  {
    mq := new ShmMQ(blockSize);
    r := mq.Enqueue(data);
    var tooSmall := new byte[small](_ => 0);
    var dataLen;
    r, dataLen := mq.Consume(tooSmall);
    assert mq.refused == 1;
    r, dataLen := mq.Consume(buf);
  }
}
