/**
 The circular block of the message queue as a value: frames, cursors and windows.
 Cursors run over 0..B inclusive, so 0 and B name the same byte of a block of B bytes.
 */
module Ring {
  import opened Bytes

  const MAGIC_NUM: uint32 := 0x58505053
  const MAGIC_LEN: nat := 4
  const HEAD_SIZE: nat := 4
  const OVERHEAD: nat := HEAD_SIZE + 2 * MAGIC_LEN

  /** A payload whose frame length fits the 32-bit length word. */
  type Message = m: seq<byte> | |m| < TWO_TO_32 - OVERHEAD

  const MAGIC: seq<byte> := EncodeLE32(MAGIC_NUM)

  /** The magic number is stored as the letters that the split layouts write one by one. */
  lemma MagicLetters()
    ensures MAGIC == ['S' as int, 'P' as int, 'P' as int, 'X' as int]
  {
    assert MAGIC_NUM / 0x100 % 256 == 0x50 && MAGIC_NUM / 0x1_0000 % 256 == 0x50;
  }

  function Header(len: nat): (head: seq<byte>)
    requires len + OVERHEAD < TWO_TO_32
    ensures |head| == MAGIC_LEN + HEAD_SIZE
  {
    MAGIC + EncodeLE32(len + OVERHEAD)
  }

  /** What a message looks like in the block. */
  function Frame(m: Message): (bytes: seq<byte>)
    ensures |bytes| == |m| + OVERHEAD
  {
    Header(|m|) + m + MAGIC
  }

  /** A frame byte by byte: the letters SPPX, its own length, the payload, and the letters again. */
  lemma FrameLayout(m: Message)
    ensures var f, sppx := Frame(m), ['S' as int, 'P' as int, 'P' as int, 'X' as int];
            && |f| == |m| + 12 && f[..4] == sppx && DecodeLE32(f[4..8]) == |m| + 12
            && f[8..8 + |m|] == m && f[8 + |m|..] == sppx
  {
    MagicLetters();
    DecodeEncodeLE32(|m| + OVERHEAD);
    assert Frame(m)[4..8] == EncodeLE32(|m| + OVERHEAD);
  }

  function Frames(ms: seq<Message>): seq<byte> {
    if ms == [] then [] else Frame(ms[0]) + Frames(ms[1..])
  }

  // ---------------------------------------------------------------- cursors

  /** The byte at distance `k` behind cursor `p`. */
  function Place(p: int, k: int, B: int): int {
    if p + k < B then p + k else p + k - B
  }

  /** Where a cursor stands after `n` more bytes. */
  function Advance(p: int, n: int, B: int): int {
    if p + n <= B then p + n else p + n - B
  }

  /** How far byte `p` lies behind cursor `t`. */
  function Offset(t: int, p: int, B: int): int {
    if p >= t then p - t else p + B - t
  }

  function UsedLen(head: int, tail: int, B: int): int {
    if tail >= head then tail - head else tail + B - head
  }

  function FreeLen(head: int, tail: int, B: int): int {
    if head > tail then head - tail else head + B - tail
  }

  lemma AdvanceTwice(p: int, m: int, n: int, B: int)
    requires 0 <= p <= B && 0 <= m && 0 <= n && m + n < B
    ensures Advance(Advance(p, m, B), n, B) == Advance(p, m + n, B)
  {
  }

  /** Both length formulas agree with the distance between the cursors, and equal cursors mean empty. */
  lemma Lengths(head: int, n: int, B: int)
    requires 0 <= head <= B && 0 <= n < B
    ensures var tail := Advance(head, n, B);
            && 0 <= tail <= B && UsedLen(head, tail, B) == n && FreeLen(head, tail, B) == B - n
            && (head == tail <==> n == 0)
  {
  }

  // ---------------------------------------------------------------- windows

  /** The `n` bytes behind cursor `p`, round the end. */
  function Window(block: seq<byte>, p: int, n: int): (bytes: seq<byte>)
    requires 0 <= p <= |block| && 0 <= n <= |block|
    ensures |bytes| == n
  {
    seq(n, j requires 0 <= j < n => block[Place(p, j, |block|)])
  }

  lemma WindowAt(block: seq<byte>, p: int, n: int, j: int)
    requires 0 <= p <= |block| && 0 <= j < n <= |block|
    ensures Window(block, p, n)[j] == block[Place(p, j, |block|)]
  {
  }

  lemma WindowSplit(block: seq<byte>, p: int, m: int, n: int)
    requires 0 <= p <= |block| && 0 <= m && 0 <= n && m + n < |block|
    ensures Window(block, p, m + n) == Window(block, p, m) + Window(block, Advance(p, m, |block|), n)
  {
    var whole, first, second := Window(block, p, m + n), Window(block, p, m), Window(block, Advance(p, m, |block|), n);
    forall j | 0 <= j < m + n
      ensures whole[j] == (first + second)[j]
    {
      if j >= m {
        assert (first + second)[j] == second[j - m];
        assert Place(Advance(p, m, |block|), j - m, |block|) == Place(p, j, |block|);
      } else {
        assert (first + second)[j] == first[j];
      }
    }
  }

  /** A window is one slice of the block, or two. */
  lemma WindowPieces(block: seq<byte>, p: int, n: int)
    requires 0 <= p <= |block| && 0 <= n < |block|
    ensures Window(block, p, n) ==
            if p + n > |block| then block[p..] + block[..p + n - |block|] else block[p..p + n]
  {
    var B := |block|;
    if p + n > B {
      var first, second := block[p..], block[..p + n - B];
      forall j | 0 <= j < n
        ensures Window(block, p, n)[j] == (first + second)[j]
      {
        assert Window(block, p, n)[j] == block[Place(p, j, B)];
        assert j < B - p ==> first[j] == block[p + j];
        assert j >= B - p ==> second[j - (B - p)] == block[p + j - B];
      }
    } else {
      forall j | 0 <= j < n
        ensures Window(block, p, n)[j] == block[p..p + n][j]
      {
        assert Window(block, p, n)[j] == block[Place(p, j, B)];
      }
    }
  }

  /** `block'` is `block` with `bytes` written behind cursor `t`. */
  ghost predicate Written(block: seq<byte>, t: int, bytes: seq<byte>, block': seq<byte>) {
    && |block'| == |block| && 0 <= t <= |block| && |bytes| <= |block|
    && forall p | 0 <= p < |block| ::
         block'[p] == if Offset(t, p, |block|) < |bytes| then bytes[Offset(t, p, |block|)] else block[p]
  }

  lemma WrittenWindow(block: seq<byte>, t: int, bytes: seq<byte>, block': seq<byte>)
    requires Written(block, t, bytes, block') && |bytes| < |block|
    ensures Window(block', t, |bytes|) == bytes
  {
    var B := |block|;
    forall j | 0 <= j < |bytes|
      ensures block'[Place(t, j, B)] == bytes[j]
    {
      assert Offset(t, Place(t, j, B), B) == j;
    }
  }

  /** What is written behind the used bytes leaves them alone. */
  lemma WrittenElsewhere(block: seq<byte>, head: int, n: int, bytes: seq<byte>, block': seq<byte>)
    requires 0 <= head <= |block| && 0 <= n && n + |bytes| < |block|
    requires Written(block, Advance(head, n, |block|), bytes, block')
    ensures Window(block', head, n) == Window(block, head, n)
  {
    var B := |block|;
    var t := Advance(head, n, B);
    forall j | 0 <= j < n
      ensures Window(block', head, n)[j] == Window(block, head, n)[j]
    {
      assert Offset(t, Place(head, j, B), B) == B - n + j;
    }
  }

  // ---------------------------------------------------------------- the queue's content

  /** Between the cursors the block holds exactly the frames of `ms`, and a byte stays free. */
  ghost predicate Stored(block: seq<byte>, head: int, tail: int, ms: seq<Message>) {
    && 0 <= head <= |block| && |Frames(ms)| < |block|
    && tail == Advance(head, |Frames(ms)|, |block|)
    && Window(block, head, |Frames(ms)|) == Frames(ms)
  }

  lemma {:induction false} FramesAppend(a: seq<Message>, b: seq<Message>)
    ensures Frames(a + b) == Frames(a) + Frames(b)
  {
    if a == [] {
      assert a + b == b;
    } else {
      assert (a + b)[0] == a[0] && (a + b)[1..] == a[1..] + b;
      FramesAppend(a[1..], b);
    }
  }

  lemma FramesOne(m: Message)
    ensures Frames([m]) == Frame(m)
  {
    assert [m][1..] == [] && Frame(m) + [] == Frame(m);
  }

  /** Every frame takes at least its overhead, so a block holds few of them. */
  lemma {:induction false} FramesCount(ms: seq<Message>)
    ensures OVERHEAD * |ms| <= |Frames(ms)|
  {
    if ms != [] {
      FramesCount(ms[1..]);
    }
  }

  /** A whole frame behind the tail joins the queue once the tail moves past it. */
  lemma StoredExtend(block: seq<byte>, head: int, tail: int, ms: seq<Message>, m: Message)
    requires Stored(block, head, tail, ms) && |Frames(ms)| + |Frame(m)| < |block|
    requires Window(block, tail, |Frame(m)|) == Frame(m)
    ensures Stored(block, head, Advance(tail, |Frame(m)|, |block|), ms + [m])
  {
    FramesAppend(ms, [m]);
    FramesOne(m);
    WindowSplit(block, head, |Frames(ms)|, |Frame(m)|);
    AdvanceTwice(head, |Frames(ms)|, |Frame(m)|, |block|);
  }

  /** Appending a frame behind the tail. */
  lemma StoredAppend(block: seq<byte>, head: int, tail: int, ms: seq<Message>, m: Message, block': seq<byte>)
    requires Stored(block, head, tail, ms) && |Frames(ms)| + |Frame(m)| < |block|
    requires Written(block, tail, Frame(m), block')
    ensures Stored(block', head, Advance(tail, |Frame(m)|, |block|), ms + [m])
  {
    WrittenWindow(block, tail, Frame(m), block');
    WrittenElsewhere(block, head, |Frames(ms)|, Frame(m), block');
    StoredExtend(block', head, tail, ms, m);
  }

  /** The oldest frame stands at the head, and what follows it is the rest of the queue. */
  lemma StoredFirst(block: seq<byte>, head: int, tail: int, ms: seq<Message>)
    requires Stored(block, head, tail, ms) && ms != []
    ensures |Frame(ms[0])| <= |Frames(ms)| && Window(block, head, |Frame(ms[0])|) == Frame(ms[0])
    ensures Stored(block, Advance(head, |Frame(ms[0])|, |block|), tail, ms[1..])
  {
    var k, n := |Frame(ms[0])|, |Frames(ms[1..])|;
    WindowSplit(block, head, k, n);
    AdvanceTwice(head, k, n, |block|);
    var all := Window(block, head, k + n);
    assert all[..k] == Frame(ms[0]) && all[k..] == Frames(ms[1..]);
  }

  /** What a reader finds behind the head: the header with the frame length, then payload and magic. */
  lemma FrameParts(block: seq<byte>, h: int, m: Message)
    requires 0 <= h <= |block| && |Frame(m)| < |block| && Window(block, h, |Frame(m)|) == Frame(m)
    ensures var head := Window(block, h, MAGIC_LEN + HEAD_SIZE);
            head == Header(|m|) && head[..MAGIC_LEN] == MAGIC && DecodeLE32(head[MAGIC_LEN..]) == |Frame(m)|
    ensures Window(block, Advance(h, MAGIC_LEN + HEAD_SIZE, |block|), |m| + MAGIC_LEN) == m + MAGIC
    ensures Advance(Advance(h, MAGIC_LEN + HEAD_SIZE, |block|), |m| + MAGIC_LEN, |block|) == Advance(h, |Frame(m)|, |block|)
  {
    var k := MAGIC_LEN + HEAD_SIZE;
    WindowSplit(block, h, k, |m| + MAGIC_LEN);
    AdvanceTwice(h, k, |m| + MAGIC_LEN, |block|);
    var all := Window(block, h, |Frame(m)|);
    assert all[..k] == Header(|m|) && all[k..] == m + MAGIC;
    DecodeEncodeLE32(|m| + OVERHEAD);
  }

  /** The oldest message as the reader meets it: its header at the head, its body behind, and behind that the rest. */
  lemma FirstFrame(block: seq<byte>, head: int, tail: int, ms: seq<Message>)
    requires Stored(block, head, tail, ms) && ms != []
    ensures |Frame(ms[0])| <= UsedLen(head, tail, |block|) < |block| && head != tail
    ensures Window(block, head, |Frame(ms[0])|) == Frame(ms[0])
    ensures var h8 := Advance(head, MAGIC_LEN + HEAD_SIZE, |block|);
            && Window(block, h8, |ms[0]| + MAGIC_LEN) == ms[0] + MAGIC
            && Stored(block, Advance(h8, |ms[0]| + MAGIC_LEN, |block|), tail, ms[1..])
  {
    StoredFirst(block, head, tail, ms);
    FrameParts(block, head, ms[0]);
    Lengths(head, |Frames(ms)|, |block|);
  }
}
