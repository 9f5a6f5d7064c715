/**
 The streaming front of MD5: a 64-byte buffer, a two-word bit counter and the
 padding of section 3 of RFC 1321. The compression of one block is any function
 from a chaining value and a block to a chaining value.
 */
module Md5 {
  import opened Bytes

  const BLOCK: nat := 64
  const TWO_TO_64: int := 0x1_0000_0000_0000_0000

  datatype Chaining = Chaining(a: uint32, b: uint32, c: uint32, d: uint32)

  const INIT := Chaining(0x67452301, 0xefcdab89, 0x98badcfe, 0x10325476)

  type Compression = (Chaining, seq<byte>) -> Chaining

  // ---------------------------------------------------------------- the one-shot digest

  /** The chaining value after all whole blocks of a message; bytes beyond them are ignored. */
  function Fold(compress: Compression, h: Chaining, msg: seq<byte>): Chaining
    decreases |msg|
  {
    if |msg| < BLOCK then h else Fold(compress, compress(h, msg[..BLOCK]), msg[BLOCK..])
  }

  function Zeros(n: nat): (z: seq<byte>)
    ensures |z| == n
  {
    seq(n, _ => 0)
  }

  /** Section 3.1: at least one byte, and the least number that leaves room for the length word. */
  function PadLength(len: nat): (n: nat)
    ensures 1 <= n <= BLOCK && (len + n) % BLOCK == 56
  {
    if len % BLOCK < 56 then 56 - len % BLOCK else 120 - len % BLOCK
  }

  /** The low and the high word of a bit count modulo 2^64. */
  function BitCount(len: nat): (uint32, uint32) {
    var bits := 8 * len % TWO_TO_64;
    (bits % TWO_TO_32, bits / TWO_TO_32)
  }

  /** Section 3.2. */
  function LengthWords(len: nat): (bytes: seq<byte>)
    ensures |bytes| == 8
  {
    EncodeLE32(BitCount(len).0) + EncodeLE32(BitCount(len).1)
  }

  function Padding(len: nat): (bytes: seq<byte>)
    ensures |bytes| == PadLength(len)
  {
    [0x80] + Zeros(PadLength(len) - 1)
  }

  function Padded(msg: seq<byte>): seq<byte> {
    msg + Padding(|msg|) + LengthWords(|msg|)
  }

  function EncodeChaining(h: Chaining): (digest: seq<byte>)
    ensures |digest| == 16
  {
    EncodeLE32(h.a) + EncodeLE32(h.b) + EncodeLE32(h.c) + EncodeLE32(h.d)
  }

  function Digest(compress: Compression, msg: seq<byte>): (digest: seq<byte>)
    ensures |digest| == 16
  {
    EncodeChaining(Fold(compress, INIT, Padded(msg)))
  }

  // ---------------------------------------------------------------- lemmas

  /** The pad length is the least positive one. */
  lemma PadLeast(len: nat, n: nat)
    requires 1 <= n && (len + n) % BLOCK == 56
    ensures PadLength(len) <= n
  {
    var r := len % BLOCK;
    assert (len + n) % BLOCK == (r + n) % BLOCK;
  }

  lemma RoomForLength(n: nat)
    requires n % BLOCK == 56
    ensures (n + 8) % BLOCK == 0
  {
  }

  lemma PaddedWhole(msg: seq<byte>)
    ensures |Padded(msg)| % BLOCK == 0
  {
    RoomForLength(|msg| + PadLength(|msg|));
  }

  /** Folding over whole blocks composes. */
  lemma {:induction false} FoldAppend(compress: Compression, h: Chaining, a: seq<byte>, b: seq<byte>)
    requires |a| % BLOCK == 0
    ensures Fold(compress, h, a + b) == Fold(compress, Fold(compress, h, a), b)
    decreases |a|
  {
    if |a| == 0 {
      assert a + b == b;
    } else {
      assert (a + b)[..BLOCK] == a[..BLOCK] && (a + b)[BLOCK..] == a[BLOCK..] + b;
      FoldAppend(compress, compress(h, a[..BLOCK]), a[BLOCK..], b);
    }
  }

  lemma {:induction false} FoldSplit(compress: Compression, h: Chaining, msg: seq<byte>, n: nat)
    requires n * BLOCK + BLOCK <= |msg|
    ensures Fold(compress, h, msg[..(n + 1) * BLOCK]) ==
            compress(Fold(compress, h, msg[..n * BLOCK]), msg[n * BLOCK..(n + 1) * BLOCK])
  {
    var head, block := msg[..n * BLOCK], msg[n * BLOCK..(n + 1) * BLOCK];
    assert msg[..(n + 1) * BLOCK] == head + block;
    FoldBlock(compress, h, head, block);
  }

  lemma FoldBlock(compress: Compression, h: Chaining, a: seq<byte>, block: seq<byte>)
    requires |a| % BLOCK == 0 && |block| == BLOCK
    ensures Fold(compress, h, a + block) == compress(Fold(compress, h, a), block)
  {
    FoldAppend(compress, h, a, block);
    assert block[..BLOCK] == block && block[BLOCK..] == [];
  }

  lemma BitsAdd(len: nat, more: nat)
    ensures 8 * (len + more) % TWO_TO_64 == (8 * len % TWO_TO_64 + 8 * more) % TWO_TO_64
  {
  }

  /** Adding word by word with a carry. */
  lemma WordsAdd(c0: uint32, c1: uint32, low: uint32, high: uint32)
    ensures var n0 := ToUint32(c0 + low);
            var n1 := ToUint32(ToUint32(c1 + if n0 < low then 1 else 0) + high);
            n1 * TWO_TO_32 + n0 == (c1 * TWO_TO_32 + c0 + high * TWO_TO_32 + low) % TWO_TO_64
  {
    var M := TWO_TO_32;
    var carry := if c0 + low >= M then 1 else 0;
    var n0 := ToUint32(c0 + low);
    assert n0 == c0 + low - carry * M && (n0 < low <==> carry == 1);
    var t := c1 + carry + high;
    var n1 := ToUint32(ToUint32(c1 + carry) + high);
    assert n1 == if t >= M then t - M else t;
  }

  lemma SplitWords(bits: nat, low: uint32, high: uint32)
    requires bits < TWO_TO_64
    ensures bits == high * TWO_TO_32 + low <==> (low, high) == (bits % TWO_TO_32, bits / TWO_TO_32)
  {
  }

  /** The carry test and the two wrapping additions add the new bits modulo 2^64. */
  lemma CounterStep(len: nat, more: nat)
    requires more < TWO_TO_32
    ensures var (c0, c1) := BitCount(len);
            var low := ToUint32(8 * more);
            var n0 := ToUint32(c0 + low);
            var carried := ToUint32(c1 + if n0 < low then 1 else 0);
            (n0, ToUint32(carried + more / 0x2000_0000)) == BitCount(len + more)
  {
    var (c0, c1) := BitCount(len);
    var low, high := ToUint32(8 * more), more / 0x2000_0000;
    assert 8 * more == high * TWO_TO_32 + low;
    BitsAdd(len, more);
    WordsAdd(c0, c1, low, high);
    var n0 := ToUint32(c0 + low);
    var n1 := ToUint32(ToUint32(c1 + if n0 < low then 1 else 0) + high);
    SplitWords(8 * len % TWO_TO_64, c0, c1);
    SplitWords(8 * (len + more) % TWO_TO_64, n0, n1);
  }

  // ---------------------------------------------------------------- the streaming context

  /** The whole blocks of what has been absorbed. */
  function Whole(msg: seq<byte>): seq<byte> {
    msg[..|msg| - |msg| % BLOCK]
  }

  function Rest(msg: seq<byte>): seq<byte> {
    msg[|msg| - |msg| % BLOCK..]
  }

  /** Bytes that complete a block move it from the rest to the whole blocks. */
  lemma WholeStep(compress: Compression, msg: seq<byte>, more: seq<byte>)
    requires |Rest(msg)| + |more| == BLOCK
    ensures Whole(msg + more) == Whole(msg) + (Rest(msg) + more) && Rest(msg + more) == []
    ensures Fold(compress, INIT, Whole(msg + more)) == compress(Fold(compress, INIT, Whole(msg)), Rest(msg) + more)
  {
    var all := msg + more;
    assert |all| == |Whole(msg)| + BLOCK;
    assert Whole(msg) + Rest(msg) == msg;
    assert all == Whole(msg) + (Rest(msg) + more);
    assert |all| % BLOCK == 0;
    FoldBlock(compress, INIT, Whole(msg), Rest(msg) + more);
  }

  lemma RestStep(msg: seq<byte>, more: seq<byte>)
    requires |Rest(msg)| + |more| < BLOCK
    ensures Whole(msg + more) == Whole(msg) && Rest(msg + more) == Rest(msg) + more
  {
    var all := msg + more;
    assert Whole(msg) + Rest(msg) == msg;
    assert |all| == |Whole(msg)| + (|Rest(msg)| + |more|) && |Whole(msg)| % BLOCK == 0;
    assert |all| % BLOCK == |Rest(msg)| + |more|;
  }

  lemma LowWord(k: int, r: uint32)
    ensures (TWO_TO_32 * k + r) % TWO_TO_32 == r
  {
  }

  // The loop over the blocks of one call counts in 32 bits. With `idx` bytes in the buffer it passes
  // the positions 64 - idx, 128 - idx and so on.

  predicate GoesOn(i: uint32, len: uint32) {
    ToUint32(i + 63) < len
  }

  predicate Reached(idx: nat, i: uint32) {
    (i + idx) % BLOCK == 0
  }

  lemma GuardHolds(idx: nat, i: uint32, len: uint32)
    requires idx < BLOCK && Reached(idx, i) && idx + len < TWO_TO_32 && i <= len
    ensures GoesOn(i, len) <==> i + BLOCK <= len
  {
    assert i + idx <= TWO_TO_32 - BLOCK;
  }

  lemma GuardNeverFalls(idx: nat, i: uint32, len: uint32)
    requires idx < BLOCK && Reached(idx, i) && idx + len >= TWO_TO_32
    ensures GoesOn(i, len) && Reached(idx, ToUint32(i + BLOCK))
  {
    if i + idx >= TWO_TO_32 {
      assert i + idx == TWO_TO_32;
      assert i + 63 == TWO_TO_32 + (63 - idx);
      LowWord(1, 63 - idx);
    }
    if i + BLOCK >= TWO_TO_32 {
      LowWord(1, i + BLOCK - TWO_TO_32);
    }
  }

  /** The position after `n` turns. */
  function Position(idx: nat, n: nat): uint32
    requires idx < BLOCK
  {
    if n == 0 then BLOCK - idx else ToUint32(Position(idx, n - 1) + BLOCK)
  }

  lemma {:induction false} PositionReached(idx: nat, n: nat)
    requires idx < BLOCK
    ensures Reached(idx, Position(idx, n))
  {
    if n > 0 {
      PositionReached(idx, n - 1);
      var i := Position(idx, n - 1);
      assert i + BLOCK < TWO_TO_32 || ToUint32(i + BLOCK) == i + BLOCK - TWO_TO_32 by {
        if i + BLOCK >= TWO_TO_32 {
          LowWord(1, i + BLOCK - TWO_TO_32);
        }
      }
    }
  }

  /** The call stops, and where it should, exactly when the buffered and the new bytes together stay below 2^32;
      otherwise its loop runs on for ever, round the 32-bit counter and beyond the input. */
  lemma BlocksStopIff(idx: nat, len: uint32)
    requires idx < BLOCK && BLOCK - idx <= len
    ensures (exists n: nat :: !GoesOn(Position(idx, n), len)) <==> idx + len < TWO_TO_32
  {
    if idx + len < TWO_TO_32 {
      var n := (len - (BLOCK - idx)) / BLOCK;
      PositionIs(idx, n, len);
      GuardHolds(idx, Position(idx, n), len);
    } else {
      forall n: nat
        ensures GoesOn(Position(idx, n), len)
      {
        PositionReached(idx, n);
        GuardNeverFalls(idx, Position(idx, n), len);
      }
    }
  }

  lemma {:induction false} PositionIs(idx: nat, n: nat, len: uint32)
    requires idx < BLOCK && BLOCK - idx + n * BLOCK <= len
    ensures Position(idx, n) == BLOCK - idx + n * BLOCK && Reached(idx, Position(idx, n))
  {
    PositionReached(idx, n);
    if n > 0 {
      PositionIs(idx, n - 1, len);
    }
  }

  class QMD5Context {
    const compress: Compression
    var state: Chaining
    var count0: uint32
    var count1: uint32
    const buffer: array<byte>

    /** Everything absorbed since the last initialisation. */
    ghost var absorbed: seq<byte>

    ghost predicate Valid()
      reads this, buffer
    {
      && buffer.Length == BLOCK
      && (count0, count1) == BitCount(|absorbed|)
      && state == Fold(compress, INIT, Whole(absorbed))
      && buffer[..|Rest(absorbed)|] == Rest(absorbed)
    }

    constructor (compress: Compression)
      ensures Valid() && absorbed == [] && fresh(buffer) && this.compress == compress
    {
      this.compress := compress;
      buffer := new byte[BLOCK](_ => 0);
      state := INIT;
      count0, count1 := 0, 0;
      absorbed := [];
    }

    /** Bytes of the buffer in use, as the low count word tells. */
    method BufferIndex() returns (idx: nat)
      requires Valid()
      ensures idx == |Rest(absorbed)| == |absorbed| % BLOCK
    {
      IndexFromBits(|absorbed|);
      return count0 / 8 % BLOCK;
    }

    method CopyIn(idx: nat, bytes: seq<byte>)
      requires idx + |bytes| <= buffer.Length
      modifies buffer
      ensures buffer[..] == old(buffer[..idx]) + bytes + old(buffer[idx + |bytes|..])
    {
      forall j | 0 <= j < |bytes| {
        buffer[idx + j] := bytes[j];
      }
    }

    method AddBits(len: nat)
      requires (count0, count1) == BitCount(|absorbed|) && len < TWO_TO_32
      modifies `count0, `count1
      ensures (count0, count1) == BitCount(|absorbed| + len)
    {
      CounterStep(|absorbed|, len);
      var low := ToUint32(8 * len);
      count0 := ToUint32(count0 + low);
      if count0 < low {
        count1 := ToUint32(count1 + 1);
      }
      count1 := ToUint32(count1 + len / 0x2000_0000);
    }

    /** Fills the buffer, then takes whole blocks straight from the input; `i` is where it stops. */
    method Transform(idx: nat, input: seq<byte>) returns (i: nat)
      requires buffer.Length == BLOCK && |Rest(absorbed)| == idx && BLOCK - idx <= |input| && idx + |input| < TWO_TO_32
      requires state == Fold(compress, INIT, Whole(absorbed)) && buffer[..idx] == Rest(absorbed)
      modifies `state, buffer
      ensures i <= |input| < i + BLOCK
      ensures Settled(compress, state, absorbed + input[..i])
    {
      var partLen := BLOCK - idx;
      CopyIn(idx, input[..partLen]);
      WholeStep(compress, absorbed, input[..partLen]);
      assert buffer[..] == Rest(absorbed) + input[..partLen];
      state := compress(state, buffer[..]);
      i := Blocks(partLen, idx, input);
    }

    method Blocks(from: uint32, ghost idx: nat, input: seq<byte>) returns (i: uint32)
      requires idx < BLOCK && from == BLOCK - idx <= |input| && idx + |input| < TWO_TO_32
      requires Settled(compress, state, absorbed + input[..from])
      modifies `state
      ensures i <= |input| < i + BLOCK
      ensures Settled(compress, state, absorbed + input[..i])
    {
      i := from;
      GuardHolds(idx, i, |input|);
      while GoesOn(i, |input|)
        invariant i <= |input| && Reached(idx, i) && (GoesOn(i, |input|) <==> i + BLOCK <= |input|)
        invariant Settled(compress, state, absorbed + input[..i])
        decreases |input| - i
      {
        NextBlock(compress, state, absorbed, input, i);
        state := compress(state, input[i..i + BLOCK]);
        i := ToUint32(i + BLOCK);
        GuardHolds(idx, i, |input|);
      }
    }

    /** What does not fill a block stays in the buffer behind what is there already. */
    method KeepRest(idx: nat, more: seq<byte>, ghost msg: seq<byte>)
      requires buffer.Length == BLOCK && idx == |Rest(msg)| && idx + |more| < BLOCK
      requires state == Fold(compress, INIT, Whole(msg)) && buffer[..idx] == Rest(msg)
      modifies buffer
      ensures state == Fold(compress, INIT, Whole(msg + more)) && buffer[..|Rest(msg + more)|] == Rest(msg + more)
    {
      RestStep(msg, more);
      CopyIn(idx, more);
    }

    method Update(input: seq<byte>)
      requires Valid() && |absorbed| % BLOCK + |input| < TWO_TO_32
      modifies this, buffer
      ensures Valid() && absorbed == old(absorbed) + input
    {
      var idx := BufferIndex();
      AddBits(|input|);
      assert absorbed + input[..0] == absorbed;
      var i := 0;
      if |input| >= BLOCK - idx {
        i := Transform(idx, input);
        idx := 0;
      }
      ghost var msg := absorbed + input[..i];
      assert state == Fold(compress, INIT, Whole(msg)) && buffer[..idx] == Rest(msg);
      assert msg + input[i..] == absorbed + input;
      KeepRest(idx, input[i..], msg);
      absorbed := absorbed + input;
    }

    /** Padding, then the bit count as it stood before the padding. */
    method Pad()
      requires Valid()
      modifies this, buffer
      ensures Valid() && absorbed == Padded(old(absorbed))
    {
      var bits := EncodeLE32(count0) + EncodeLE32(count1);
      var idx := BufferIndex();
      var padLen := if idx < 56 then 56 - idx else 120 - idx;
      Update([0x80] + Zeros(padLen - 1));
      Update(bits);
    }

    /** The digest of all that was absorbed; the context is zeroed. */
    method Final() returns (digest: seq<byte>)
      requires Valid()
      modifies this, buffer
      ensures digest == Digest(compress, old(absorbed))
    {
      Pad();
      PaddedWhole(old(absorbed));
      assert Whole(absorbed) == absorbed;
      digest := EncodeChaining(state);
      state, count0, count1 := Chaining(0, 0, 0, 0), 0, 0;
      forall j | 0 <= j < BLOCK {
        buffer[j] := 0;
      }
    }
  }

  /** `h` is the chaining value of a message of whole blocks. */
  ghost predicate Settled(compress: Compression, h: Chaining, msg: seq<byte>) {
    h == Fold(compress, INIT, Whole(msg)) && Rest(msg) == []
  }

  lemma NextBlock(compress: Compression, h: Chaining, msg: seq<byte>, input: seq<byte>, i: nat)
    requires i + BLOCK <= |input| && Settled(compress, h, msg + input[..i])
    ensures Settled(compress, compress(h, input[i..i + BLOCK]), msg + input[..i + BLOCK])
  {
    assert msg + input[..i + BLOCK] == msg + input[..i] + input[i..i + BLOCK];
    WholeStep(compress, msg + input[..i], input[i..i + BLOCK]);
    assert [] + input[i..i + BLOCK] == input[i..i + BLOCK];
  }

  lemma LowBits(k: nat, b: nat)
    ensures (BLOCK * k + b) % BLOCK == b % BLOCK
  {
  }

  lemma IndexFromBits(len: nat)
    ensures BitCount(len).0 / 8 % BLOCK == len % BLOCK
  {
    var a, b, c := len / 0x2000_0000, len % 0x2000_0000, 8 * len / TWO_TO_64;
    var bits := 8 * len % TWO_TO_64;
    assert bits == TWO_TO_32 * (a - TWO_TO_32 * c) + 8 * b;
    LowWord(a - TWO_TO_32 * c, 8 * b);
    LowBits(0x80_0000 * a, b);
    assert len == BLOCK * (0x80_0000 * a) + b;
  }

  function Concat(chunks: seq<seq<byte>>): seq<byte> {
    if chunks == [] then [] else Concat(chunks[..|chunks| - 1]) + chunks[|chunks| - 1]
  }

  /** However a message is cut up over calls of Update, Final gives its one-shot digest. */
  method DigestChunks(compress: Compression, chunks: seq<seq<byte>>) returns (digest: seq<byte>)
    requires forall i | 0 <= i < |chunks| :: |Concat(chunks[..i])| % BLOCK + |chunks[i]| < TWO_TO_32
    ensures digest == Digest(compress, Concat(chunks))
  {
    var context := new QMD5Context(compress);
    for i := 0 to |chunks|
      invariant context.Valid() && context.absorbed == Concat(chunks[..i]) && context.compress == compress
      invariant fresh(context) && fresh(context.buffer)
    {
      assert chunks[..i + 1][..i] == chunks[..i];
      context.Update(chunks[i]);
    }
    assert chunks[..|chunks|] == chunks;
    digest := context.Final();
  }

  /** The digest in one call: of all the data, as far as its length fits 32 bits. */
  method QHashMD5(compress: Compression, data: seq<byte>) returns (digest: seq<byte>)
    ensures digest == Digest(compress, data[..ToUint32(|data|)])
    ensures |data| < TWO_TO_32 ==> digest == Digest(compress, data)
  {
    var context := new QMD5Context(compress);
    var nbytes := ToUint32(|data|);
    assert [] + data[..nbytes] == data[..nbytes];
    assert |data| < TWO_TO_32 ==> data[..nbytes] == data;
    context.Update(data[..nbytes]);
    digest := context.Final();
  }

  // ---------------------------------------------------------------- the digest in numbers

  /** The padded message byte by byte: the message, 0x80, zeros, and the bit count, least significant byte first. */
  lemma PaddedBytes(msg: seq<byte>)
    ensures var p := Padded(msg);
            && |p| % 64 == 0 && |msg| + 9 <= |p| <= |msg| + 72
            && p[..|msg|] == msg && p[|msg|] == 0x80
            && (forall i | |msg| < i < |p| - 8 :: p[i] == 0)
            && Number(p[|p| - 8..]) == 8 * |msg| % 0x1_0000_0000_0000_0000
  {
    var p, n := Padded(msg), |msg|;
    PaddedWhole(msg);
    assert p[|p| - 8..] == LengthWords(n);
    LengthNumber(n);
  }

  lemma LengthNumber(n: nat)
    ensures Number(LengthWords(n)) == 8 * n % TWO_TO_64
  {
    NumberOfWord(BitCount(n).0);
    NumberOfWord(BitCount(n).1);
    NumberOfEight(EncodeLE32(BitCount(n).0), EncodeLE32(BitCount(n).1));
    SplitWords(8 * n % TWO_TO_64, BitCount(n).0, BitCount(n).1);
  }

  /** The digest by the chaining values, one a block: it starts from the standard's constants, each value comes from
      the one before and the next 64 bytes, and the last one's words are the digest, first word first. */
  lemma DigestIsChain(compress: Compression, msg: seq<byte>) returns (hs: seq<Chaining>)
    ensures var p, d := Padded(msg), Digest(compress, msg);
            && 64 * (|hs| - 1) == |p|
            && hs[0] == Chaining(0x67452301, 0xefcdab89, 0x98badcfe, 0x10325476)
            && (forall i | 0 <= i < |hs| - 1 :: hs[i + 1] == compress(hs[i], BlockOf(p, i)))
            && var last := hs[|hs| - 1];
               && DecodeLE32(d[..4]) == last.a && DecodeLE32(d[4..8]) == last.b
               && DecodeLE32(d[8..12]) == last.c && DecodeLE32(d[12..]) == last.d
  {
    var p := Padded(msg);
    PaddedWhole(msg);
    var n := |p| / BLOCK;
    hs := [INIT];
    assert p[..0] == [];
    for i := 0 to n
      invariant |hs| == i + 1 && hs[0] == INIT
      invariant hs[i] == Fold(compress, INIT, p[..i * BLOCK])
      invariant forall j | 0 <= j < i :: hs[j + 1] == compress(hs[j], BlockOf(p, j))
    {
      FoldSplit(compress, INIT, p, i);
      hs := hs + [compress(hs[i], BlockOf(p, i))];
    }
    assert p[..n * BLOCK] == p;
    DigestWords(hs[n]);
  }

  function BlockOf(p: seq<byte>, i: nat): seq<byte>
    requires 64 * i + 64 <= |p|
  {
    p[64 * i..64 * i + 64]
  }

  lemma DigestWords(h: Chaining)
    ensures var d := EncodeChaining(h);
            && DecodeLE32(d[..4]) == h.a && DecodeLE32(d[4..8]) == h.b
            && DecodeLE32(d[8..12]) == h.c && DecodeLE32(d[12..]) == h.d
  {
    var d := EncodeChaining(h);
    assert d[..4] == EncodeLE32(h.a) && d[4..8] == EncodeLE32(h.b);
    assert d[8..12] == EncodeLE32(h.c) && d[12..] == EncodeLE32(h.d);
    DecodeEncodeLE32(h.a);
    DecodeEncodeLE32(h.b);
    DecodeEncodeLE32(h.c);
    DecodeEncodeLE32(h.d);
  }

  lemma {:induction false} FoldIdentity(h: Chaining, msg: seq<byte>)
    ensures Fold((g, _) => g, h, msg) == h
    decreases |msg|
  {
    if |msg| >= BLOCK {
      FoldIdentity(h, msg[BLOCK..]);
    }
  }

  /** With a compression that changes nothing the digest is the bytes of the initial words as section 3.3 lists them. */
  lemma InitialDigest(msg: seq<byte>)
    ensures Digest((g, _) => g, msg) ==
            [0x01, 0x23, 0x45, 0x67, 0x89, 0xab, 0xcd, 0xef, 0xfe, 0xdc, 0xba, 0x98, 0x76, 0x54, 0x32, 0x10]
  {
    FoldIdentity(INIT, Padded(msg));
    InitialWords();
  }

  lemma InitialWords()
    ensures EncodeLE32(INIT.a) == [0x01, 0x23, 0x45, 0x67] && EncodeLE32(INIT.b) == [0x89, 0xab, 0xcd, 0xef]
    ensures EncodeLE32(INIT.c) == [0xfe, 0xdc, 0xba, 0x98] && EncodeLE32(INIT.d) == [0x76, 0x54, 0x32, 0x10]
  {
    assert INIT.a / 0x100 == 0x674523 && INIT.b / 0x100 == 0xefcdab && INIT.c / 0x100 == 0x98badc && INIT.d / 0x100 == 0x103254;
    assert INIT.a / 0x1_0000 == 0x6745 && INIT.b / 0x1_0000 == 0xefcd && INIT.c / 0x1_0000 == 0x98ba && INIT.d / 0x1_0000 == 0x1032;
  }
}
