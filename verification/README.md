# Verified model of the shared-memory hash table and message queue

The library keeps two data structures in flat shared memory, and this project models both as they
are written, with their fields and arrays changed in place, and proves what they promise.

* **The array hash table** (`shmutil/qhasharr.c`) is a map from keys to byte strings in a fixed
  array of slots. A slot is empty, the leader of its home slot, a displaced head, or a continuation
  block of a long value, by its `count`. `HashSlots.dfy` states the slot invariant on values (every
  used slot lies on exactly one chain, chains are acyclic and doubly linked, a leader counts the keys
  of its home slot, the counters are exact) and proves what each kind of change does to it.
  `HashArr.dfy` is the class; `SlotReader.dfy` reads a value back, also beside a writer that takes no
  notice of the reader. `TableRuns.dfy` compares whole runs of calls with an abstract map.
* **The message queue** (`shmutil/shm_msg_queue.cc`) frames each message between two magic numbers
  in a circular block. `Ring.dfy` is the arithmetic of cursors and frames, `MsgQueue.dfy` the class as
  one process sees it, with whole runs against a FIFO, and `MsgQueueSpsc.dfy` a transition system of one
  producer and one consumer that interleave at every byte.
* **The wrapper with eviction** (`shmutil/shm_mrsw_hashtable.cc`, `shmutil/simple_lru.h`):
  `ValueCodec.dfy` is the self-checking form of values, `SimpleLru.dfy` the recency list with its index,
  `Eviction.dfy` what the eviction loop comes to, `Mrsw.dfy` the class.
* **Streaming MD5** (`shmutil/md5.c`): `Md5.dfy` is the buffering, counting and padding of RFC 1321,
  sections 3.1 to 3.3, for an arbitrary compression function.

## Results that a caller may not expect

* A put of a key that is already stored gives up the old value first. When the table was not full but
  the new value does not fit, the key is gone afterwards; when the table was full, the old value stays
  (`PutSpec` in `HashArr.dfy`, which the contract of `Put` states as both result and new contents).
  `FailedPutLoses` says exactly when a failed put loses the value, with `FailedPutLosesWitness` for an input.
* An empty value is stored by a loop that never turns, so no counter is raised. `Put` states that the
  counters stay right exactly if the value is nonempty or the table was full; in the other case the
  table holds one used slot and one key more than they say, and is otherwise sound. The wrapper always
  stores at least four bytes.
* One update of the MD5 context loops for ever, and reads beyond its input, exactly when the bytes that
  wait in the buffer and the new ones come to 2^32 or more (`BlocksStopIff`). A fresh context has none
  waiting, so the one-call digest is right for every length that fits 32 bits (`QHashMD5`).
* A reader whose buffer is too small has lowered the message count before it is refused. Through the
  gate of `comsume` the queue is then reported empty exactly when it holds as many messages as there
  were refusals since it was last cleared; `Stranded` is a queue whose one message
  is out of reach, `OutOfReach` says that it stays so, and `BackInReach` that one message more brings it back.
  Readers with room for every frame are never told so wrongly (`RoomyRunIsExact`).
* With eviction on, a value that an empty table could not take makes the wrapper evict everything and
  then answer `InvalidParams`, the refusal to delete the empty key (`EvictSucceedsIff`).
* The value's length is kept in 32 bits. A value reads back as it was stored exactly when its length
  fits (`RoundTrip`, `SetThenGet`).

## Assumptions

Keys have at most 96 bytes, as the library's documentation asks, so that key comparison is exact. At most 32767
keys share a home slot, because a leader's counter is a `short`. The hash function and the compression function of
MD5 are arbitrary. A block has fewer than 2^31 bytes and a frame length fits 32 bits. The interleaving
model assumes sequential consistency for the cursors and the count; the bytes of one copy may move in any
order. The locks are taken to exclude, so that there is one producer and one consumer at a time.

In `HashArr`, `ShmMQ`, `QMD5Context` and the wrapper, the branches that answer to a damaged structure (EFAULT, a failed magic
or length check) are kept where the code has them and proved dead.

## Model

| member | source | states |
|---|---|---|
| Bytes.DecodeEncodeLE32 | shmutil/common.h:34-58 | the length word of a value, and of a frame, decodes to the length that was encoded |
| Bytes.EncodeDecodeLE32 | shmutil/common.h:34-58 | every four bytes are the encoding of the word that they decode to |
| Bytes.NumberOfWord | shmutil/common.h:34-58 | the encoded bytes spell the word with the least significant byte first |
| HashSlots.TallyIsNeed | shmutil/qhasharr.c:917-976 | conservation: the used slots are exactly the sum of what the stored values need, and there is one head a key |
| HashSlots.NeedExact | shmutil/qhasharr.c:944-966 | n slots take exactly the values of at most 128 + 242 * (n - 1) bytes |
| HashSlots.ChainOkLength | shmutil/qhasharr.c:917-976 | a chain that carries a value has as many slots as the value's length needs |
| HashSlots.LayChunk | shmutil/qhasharr.c:917-976 | a turn of the storing loop lengthens the chain under construction by its chunk and leaves every other slot in use alone |
| HashSlots.LayStuck | shmutil/qhasharr.c:919-929 | when no slot is left for the next chunk, the value needs more slots than the table had free |
| HashSlots.UndoGrown | shmutil/qhasharr.c:919-929 | freeing the half-written chain restores every slot that was in use and the counters |
| HashSlots.AdoptChain | shmutil/qhasharr.c:890-979 | a finished chain in formerly empty slots joins the partition of the used slots |
| HashSlots.AdoptHolds | shmutil/qhasharr.c:890-979 | it adds its key with the value spelled out by its slots and changes no other key's value |
| HashSlots.DropChain | shmutil/qhasharr.c:1020-1056 | clearing one chain leaves a partition of the remaining used slots |
| HashSlots.DropHolds | shmutil/qhasharr.c:1020-1056 | and every other key's full value |
| HashSlots.ClearedTally | shmutil/qhasharr.c:1020-1056 | it frees as many used slots as the chain has and one head |
| HashSlots.Relocate | shmutil/qhasharr.c:335-359 | moving a head or a continuation block to an empty slot, with both neighbours' links repaired, keeps the slot invariant |
| HashSlots.RelocateHolds | shmutil/qhasharr.c:335-359 | and the full value of every key, the moved one's included |
| HashSlots.Movable | shmutil/qhasharr.c:324-359 | what sits in a needed home slot without leading it belongs to a chain of another home and can be moved to any empty slot |
| HashSlots.Displaced | shmutil/qhasharr.c:635-651 | when a leader counts more than one key, there is a displaced head of the same home slot elsewhere |
| HashSlots.Shared | shmutil/qhasharr.c:668-677 | a displaced key's leader counts at least two keys |
| HashSlots.HomesAdd | shmutil/qhasharr.c:275-318 | a new key with its leader's count raised, or as the leader, keeps every leader's count equal to the keys of its home slot |
| HashSlots.HomesRemove | shmutil/qhasharr.c:628-682 | a removed key with its leader's count lowered keeps the same |
| HashSlots.HomesPromote | shmutil/qhasharr.c:653-666 | so does the removal of a leader whose slot a displaced head takes over with the count less one |
| HashSlots.SeekDone | shmutil/qhasharr.c:756-812 | probing that stops after the leader's count of same-hash heads has seen every key of that home slot |
| HashSlots.ListingComplete | shmutil/qhasharr.c:545-590 | the heads in table order give back the contents, each key once with its value |
| SlotReader.Measure | shmutil/qhasharr.c:828-840 | the first pass looks at no more than maxslots + 1 slots under any interference that keeps links in range, and yields the value's length when nobody writes |
| SlotReader.Collect | shmutil/qhasharr.c:848-884 | the second pass looks at no more than maxslots + 1 slots and stays within the length of the first one under any such interference |
| SlotReader.GetData | shmutil/qhasharr.c:814-888 | both passes together: bounded under interference, every store within the first pass's length, and an undisturbed chain gives back exactly the stored value |
| HashArr.HashArr.constructor | shmutil/qhasharr.c:189-212 | a fresh table is empty and satisfies the slot invariant |
| HashArr.HashArr.FindEmpty | shmutil/qhasharr.c:732-753 | the result is an empty slot, and -1 exactly when there is none |
| HashArr.HashArr.CopySlot | shmutil/qhasharr.c:983-1000 | copies only onto an empty slot, and counts it |
| HashArr.HashArr.RemoveSlot | shmutil/qhasharr.c:1002-1018 | empties a used slot, and counts it |
| HashArr.HashArr.RemoveData | shmutil/qhasharr.c:1020-1056 | clears exactly the slots of the chain, lowers the counters by its length and by one, and the loop guard never strikes |
| HashArr.HashArr.LinkEmpty | shmutil/qhasharr.c:919-941 | takes an empty slot as a continuation block whose back link names its predecessor; fails exactly when no slot is empty |
| HashArr.HashArr.StoreChunk | shmutil/qhasharr.c:944-976 | stores the next 128 or 242 bytes, or what is left, and counts the slot, and the key at its head |
| HashArr.HashArr.StoreValue | shmutil/qhasharr.c:914-979 | a nonempty value is stored exactly if used slots and needed slots together are at most maxslots; then the chain carries the value, else no slot in use has changed; the counters are exact exactly for a nonempty value |
| HashArr.HashArr.PutData | shmutil/qhasharr.c:890-979 | the same with the contents: the key maps to the value, or nothing has changed, or an empty value has left a bare head that nothing counts |
| HashArr.HashArr.GetIdx | shmutil/qhasharr.c:756-812 | the head of the key's chain, and -1 exactly when the key is not stored, in spite of the early stop |
| HashArr.HashArr.Exist | shmutil/qhasharr.c:222-244 | true exactly for stored keys |
| HashArr.HashArr.Get | shmutil/qhasharr.c:442-468 | the stored value byte for byte, or nothing exactly when the key is not stored |
| HashArr.HashArr.FindDisplaced | shmutil/qhasharr.c:637-651 | the search for a duplicate finds one before it has come round, so EFAULT is never returned |
| HashArr.HashArr.Promote | shmutil/qhasharr.c:658-666 | the displaced head moves into the leader's slot and all contents stay |
| HashArr.HashArr.Remove | shmutil/qhasharr.c:604-688 | in all three branches the key, and only it, leaves the contents; ENOENT exactly when it was not stored |
| HashArr.HashArr.RemoveLeader | shmutil/qhasharr.c:633-667 | the branch that promotes a displaced key |
| HashArr.HashArr.RemoveDisplaced | shmutil/qhasharr.c:668-681 | the branch that lowers the leader's count; its EFAULT is never returned |
| HashArr.HashArr.MoveAside | shmutil/qhasharr.c:322-359 | a foreign slot leaves the needed home slot, which is then empty, and all contents stay |
| HashArr.HashArr.PutLeader | shmutil/qhasharr.c:282-288 | a new key in an empty home slot: success exactly if its value fits, else nothing has changed; an empty value leaves an uncounted head |
| HashArr.HashArr.PutDisplaced | shmutil/qhasharr.c:300-318 | the same for a new key beside a leader, whose count follows |
| HashArr.HashArr.Put | shmutil/qhasharr.c:259-368 | result and new contents of every branch: a full table refuses and keeps all; otherwise an old value of the key goes first and the put succeeds exactly if the slots then suffice; the counters stay right exactly if the value is nonempty or the table was full |
| HashArr.HashArr.UncountedMiscounts | shmutil/qhasharr.c:905-979 | after an empty value was put, the used slots and the keys are each one more than the counters say |
| HashArr.FailedPutLoses | shmutil/qhasharr.c:275-303 | a put that fails leaves the contents as they were exactly if the key was not stored or the table was full |
| HashArr.FailedPutLosesWitness | shmutil/qhasharr.c:294-298 | in a table of two slots a value of three slots replaces a stored one by nothing |
| HashArr.HashArr.PutAgain | shmutil/qhasharr.c:294-299 | removing a stored key and putting it anew is the put of a stored key |
| HashArr.HashArr.PutOver | shmutil/qhasharr.c:320-365 | the branch that first moves a foreign slot out of the home slot |
| HashArr.PutSpecNew | shmutil/qhasharr.c:275-303 | a new key succeeds exactly if the slots in use and those it needs are at most maxslots, and a failure changes nothing |
| HashArr.PutSpecAgain | shmutil/qhasharr.c:289-299 | putting a stored key is removing it and putting it anew |
| HashArr.HashArr.Clear | shmutil/qhasharr.c:714-729 | the empty table, also by the shortcut for a table without used slots |
| HashArr.HashArr.Size | shmutil/qhasharr.c:697-705 | number of keys, slots, and slots that the contents need |
| HashArr.HashArr.GetNext | shmutil/qhasharr.c:545-590 | yields the first entry at or after the position and the position behind it, or the end |
| HashArr.HashArr.ListsAll | shmutil/qhasharr.c:545-590 | from position 0 on the entries are the contents, each once |
| TableRuns.RunFits | shmutil/qhasharr.c:275-303 | in every run the stored values need at most maxslots slots |
| TableRuns.StepMeaning | shmutil/qhasharr.c:259-368 | every answer said outright; a call changes no key but its own, a successful put is what later gets see, a failed one costs the key its old value exactly if the table was not full, a removed key is gone |
| TableRuns.Apply | shmutil/qhasharr.c:259-729 | each call answers as the abstract map does and leaves the abstract map's next state |
| TableRuns.Replay | shmutil/qhasharr.c:189-729 | refinement over every run of put, remove, get, exist and clear from a fresh table: all answers are the abstract map's |
| TableRuns.Traverse | shmutil/qhasharr.c:545-590 | repeated getnext on an unchanging table yields every pair exactly once and then ends |
| TableRuns.PutAlone | shmutil/qhasharr.c:259-288 | an empty table of n slots stores a nonempty value under a key of up to 96 bytes exactly if the value has at most 128 + 242 * (n - 1) bytes |
| HashSlots.EmptyValueMiscounts | shmutil/qhasharr.c:905-920 | a head written for a value of no bytes is one used slot and one key more than the counters say |
| Md5.PaddedWhole | shmutil/md5.c:190-195 | message, padding and length word fill whole blocks (sections 3.1 and 3.2 of RFC 1321) |
| Md5.PadLeast | shmutil/md5.c:190-192 | the padding is the least of at least one byte that leaves eight bytes of room in the block |
| Md5.PaddedBytes | shmutil/md5.c:178-196 | byte by byte: the message, 0x80, zeros, and eight bytes that spell the bit count modulo 2^64, least significant first; 9 to 72 bytes more than the message |
| Md5.FoldAppend | shmutil/md5.c:154-165 | compressing whole blocks composes over concatenation |
| Md5.CounterStep | shmutil/md5.c:146-150 | the two-word addition with carry detection adds eight times the bytes modulo 2^64 |
| Md5.QMD5Context.AddBits | shmutil/md5.c:146-150 | the counter is eight times the bytes absorbed modulo 2^64 |
| Md5.QMD5Context.Update | shmutil/md5.c:134-172 | the state is the fold over all whole blocks absorbed and the buffer the remainder, for any split of the input whose length with the buffered bytes stays below 2^32 |
| Md5.BlocksStopIff | shmutil/md5.c:161-162 | the loop over the blocks of a call stops exactly if the buffered bytes and the input together stay below 2^32 |
| Md5.GuardHolds | shmutil/md5.c:161 | there the wrapping guard says what it should: another whole block is left |
| Md5.GuardNeverFalls | shmutil/md5.c:161 | otherwise the guard holds at every position that the 32-bit counter comes to, beyond the input too |
| Md5.QMD5Context.Pad | shmutil/md5.c:178-196 | absorbs padding and the bit count from before the padding |
| Md5.QMD5Context.Final | shmutil/md5.c:203-217 | returns the one-shot digest of all that was absorbed |
| Md5.DigestIsChain | shmutil/md5.c:115-217 | the digest is the words, first one first, of the last of a chain of values that starts from the standard's constants and takes in the padded message 64 bytes at a time |
| Md5.InitialDigest | shmutil/md5.c:121-125 | with a compression that changes nothing the digest is the sixteen bytes of the initial words in the standard's order |
| Md5.DigestChunks | shmutil/md5.c:134-217 | any split of a message over update calls, each within that bound, yields the digest of the whole message |
| Md5.QHashMD5 | shmutil/qhash.c:68-86 | one call on a fresh context gives the digest of the data for every length that fits 32 bits, and of the truncated data beyond |
| Ring.Lengths | shmutil/shm_msg_queue.cc:130-137 | used and free length agree with the distance of the cursors and add up to the block; equal cursors mean empty |
| Ring.WindowSplit | shmutil/shm_msg_queue.cc:340-421 | reading m and then n bytes round the end is reading m + n |
| Ring.WindowPieces | shmutil/shm_msg_queue.cc:354-421 | a read round the end is one slice of the block, or two |
| Ring.FrameLayout | shmutil/shm_msg_queue.cc:232-247 | a frame is the letters SPPX, the frame's length, the payload, and the letters again, 12 bytes more than the payload |
| Ring.StoredAppend | shmutil/shm_msg_queue.cc:204-321 | a frame written behind the tail joins the queue and the older frames stay |
| Ring.StoredFirst | shmutil/shm_msg_queue.cc:327-421 | the oldest frame stands at the head and the rest of the queue behind it |
| Ring.FrameParts | shmutil/shm_msg_queue.cc:349-385 | behind the head stand magic and frame length, then payload and magic |
| MsgQueue.ShmMQ.ClearMQ | shmutil/shm_msg_queue.cc:158-170 | an empty queue with count zero |
| MsgQueue.ShmMQ.Check | shmutil/shm_msg_queue.cc:172-202 | accepts exactly cursors within the block; others clear the queue unless another live process is clearing it |
| MsgQueue.ShmMQ.GetStat | shmutil/shm_msg_queue.cc:130-142 | used length is the sum of the frame lengths, used and free length add up to the block |
| MsgQueue.ShmMQ.WriteStraight | shmutil/shm_msg_queue.cc:237-248 | the layout before the end writes the circular frame at the tail and nothing else |
| MsgQueue.ShmMQ.WriteSplitBody | shmutil/shm_msg_queue.cc:250-266 | so does the layout that splits the payload |
| MsgQueue.ShmMQ.WriteSplitMagic | shmutil/shm_msg_queue.cc:268-295 | so do the three that split the trailing magic |
| MsgQueue.ShmMQ.WriteSplitHead | shmutil/shm_msg_queue.cc:302-320 | so does the layout that splits the header |
| MsgQueue.ShmMQ.WriteFrame | shmutil/shm_msg_queue.cc:235-320 | whichever layout is picked, the same circular frame is written and the tail advances by its length round the end |
| MsgQueue.ShmMQ.Enqueue | shmutil/shm_msg_queue.cc:204-323 | appends the message exactly if used length, payload and 12 are below the block size, else changes nothing |
| MsgQueue.ShmMQ.ReadBlock | shmutil/shm_msg_queue.cc:353-421 | the reader's split copy yields the bytes behind the head and advances as the writer does |
| MsgQueue.ShmMQ.Dequeue | shmutil/shm_msg_queue.cc:327-438 | removes and returns exactly the oldest payload if the buffer has four bytes more; a smaller buffer is refused, with the count lowered; an empty queue says so |
| MsgQueue.ShmMQ.Consume | shmutil/shm_msg_queue.cc:574-583 | behind the gate: reports empty exactly if the refusals equal the messages held; otherwise delivers the oldest exactly if the buffer has four bytes more than it, else reports the size it wants and counts a refusal |
| MsgQueue.RunIsFifo | shmutil/shm_msg_queue.cc:204-438 | over every run, what was accepted since the last clear is what was delivered followed by what is held |
| MsgQueue.RoomyRunIsExact | shmutil/shm_msg_queue.cc:574-583 | with buffers as large as the block, empty is reported exactly for the empty queue |
| MsgQueue.EmptyIffRefused | shmutil/shm_msg_queue.cc:574-583 | over every run and for every buffer, empty is reported exactly if the refusals since the last clear equal the messages held, and then nothing changes |
| MsgQueue.OutOfReach | shmutil/shm_msg_queue.cc:574-583 | from then on any number of reads leaves the queue as it is |
| MsgQueue.BackInReach | shmutil/shm_msg_queue.cc:321-406 | one message more and the oldest one is delivered |
| MsgQueue.Drive | shmutil/shm_msg_queue.cc:158-583 | over every run the array-backed queue returns the codes of the abstract queue and ends in its state, and the messages it took are the payloads that readers found in their buffers followed by those it holds |
| MsgQueue.Stranded | shmutil/shm_msg_queue.cc:346-406 | one refusal on a queue of one message and a reader with ample room is told that it is empty |
| MsgQueueSpsc.PlanIsFrame | shmutil/shm_msg_queue.cc:235-318 | all layouts, the three split magics included, store the same circular frame byte by byte and publish the same tail |
| MsgQueueSpsc.PlanIsWrite | shmutil/shm_msg_queue.cc:235-318 | the byte stores of the interleaving model and the sequential write of a frame leave the same block |
| MsgQueueSpsc.ReaderMatchesWriter | shmutil/shm_msg_queue.cc:354-421 | reader and writer place bytes and advance cursors by the same function |
| MsgQueueSpsc.StaleHeadFits | shmutil/shm_msg_queue.cc:208-226 | the free length under a stale head never exceeds the room that is really free |
| MsgQueueSpsc.WriteByteMisses | shmutil/shm_msg_queue.cc:232-320 | every store of an enqueue lands outside the unread bytes |
| MsgQueueSpsc.SnapshotHoldsFrame | shmutil/shm_msg_queue.cc:331-348 | the used length under stale snapshots still covers the oldest frame |
| MsgQueueSpsc.HeaderChecksPass | shmutil/shm_msg_queue.cc:371-407 | the magic and length checks never fail under any interleaving; only the buffer's size decides |
| MsgQueueSpsc.StepKeeps | shmutil/shm_msg_queue.cc:204-438 | every step of either side, at any point of the other, keeps the invariant |
| MsgQueueSpsc.DeliveredIsPrefix | shmutil/shm_msg_queue.cc:204-438 | in every state of every interleaving the delivered payloads are a prefix of the sent ones, byte for byte, and no check has failed |
| MsgQueueSpsc.StoresMissUnread | shmutil/shm_msg_queue.cc:208-320 | a producer with a stale head never changes the unread frames |
| MsgQueueSpsc.ReadsCompleteFrame | shmutil/shm_msg_queue.cc:331-421 | a consumer with a stale tail only fetches bytes of the oldest complete frame |
| MsgQueueSpsc.CountIsAccounted | shmutil/shm_msg_queue.cc:321-406 | the atomic count is the frames in the ring less one published but not counted, one counted down but not passed, and the refusals; it is never negative |
| MsgQueueSpsc.GateIsHonest | shmutil/shm_msg_queue.cc:574-583 | a consumer that passed the gate does not report an empty queue |
| MsgQueueSpsc.ConsumerWaitsForNobody | shmutil/shm_msg_queue.cc:327-438 | when a message is counted, the consumer's own steps deliver the oldest one wherever the producer has stopped |
| MsgQueueSpsc.ReadTailDecides | shmutil/shm_msg_queue.cc:208-230 | under a stale head a copy begins exactly if the frames behind that head and the new one leave a byte free; otherwise nothing changes |
| MsgQueueSpsc.ProducerWaitsForNobody | shmutil/shm_msg_queue.cc:204-323 | with room for the frame the producer's own steps send and count the message, wherever the consumer has stopped |
| MsgQueueSpsc.SentIsDelivered | shmutil/shm_msg_queue.cc:204-438 | on a drained queue any message that the block can hold is sent and then delivered |
| MsgQueueSpsc.ClearEmpties | shmutil/shm_msg_queue.cc:158-170 | clearing a queue at rest empties it |
| ValueCodec.VerifyIffPrefix | shmutil/shm_mrsw_hashtable.cc:169-207 | a stored string is accepted as a value exactly if it starts with that value's encoding, in the doubled and the MD5 form |
| ValueCodec.RoundTrip | shmutil/shm_mrsw_hashtable.cc:241-268 | a value verifies from its encoding exactly if its length is below 2^32 |
| ValueCodec.EncodingLayout | shmutil/shm_mrsw_hashtable.cc:241-268 | length word, value, and a copy of it up to 1024 bytes or its digest above: 4 + 2n or 20 + n bytes |
| ValueCodec.EncodingsApart | shmutil/shm_mrsw_hashtable.cc:241-268 | no encoding is a prefix of another value's |
| SimpleLru.VisitedMeaning | shmutil/simple_lru.h:41-51 | a visit brings the key to the front and leaves the others as they stood, never doubles a key, and changes the last key only if that was the one visited |
| SimpleLru.SimpleLru.GetRemoveKey | shmutil/simple_lru.h:24-30 | the least recently visited key, the empty string for the empty list |
| SimpleLru.SimpleLru.RemoveKey | shmutil/simple_lru.h:32-39 | drops that key from list and index |
| SimpleLru.SimpleLru.VisitKey | shmutil/simple_lru.h:41-51 | list and index agree after a visit, whether the key was known or not: the key comes out of its place to the front |
| Eviction.EvictsShortestSuffix | shmutil/shm_mrsw_hashtable.cc:277-303 | the loop evicts the shortest suffix of the recency list that makes room; with any fewer evictions the put did not fit; failing that it uses up the list |
| Eviction.EvictSucceedsIff | shmutil/shm_mrsw_hashtable.cc:277-303 | while the list names every stored key, the loop succeeds exactly if the value's slots are at most maxslots; otherwise everything is evicted |
| Eviction.EvictKeepsCover | shmutil/shm_mrsw_hashtable.cc:277-310 | afterwards the list still names every stored key, each once |
| Eviction.StoredMeaning | shmutil/shm_mrsw_hashtable.cc:270-310 | success maps the key to the value; every other key that is left keeps its value |
| Eviction.PlainStore | shmutil/shm_mrsw_hashtable.cc:277-310 | without eviction the value is stored exactly if the table is not full and has room once the old value is gone; a refusal keeps the list, and loses the old value exactly if the table was not full |
| Mrsw.MrswHashtable.GetValue | shmutil/shm_mrsw_hashtable.cc:209-226 | the value whose encoding the stored bytes start with, or which error |
| Mrsw.MrswHashtable.IsExist | shmutil/shm_mrsw_hashtable.cc:312-320 | whether the key is stored |
| Mrsw.MrswHashtable.DeleteKey | shmutil/shm_mrsw_hashtable.cc:322-338 | the key is gone, which is no error when it was never there, and the recency list is untouched |
| Mrsw.MrswHashtable.ClearTable | shmutil/shm_mrsw_hashtable.cc:353-360 | an empty table under an untouched recency list |
| Mrsw.MrswHashtable.EvictOne | shmutil/shm_mrsw_hashtable.cc:285-295 | drops the least recent key from table and list; the used-up list gives InvalidParams |
| Mrsw.MrswHashtable.StoreEncoded | shmutil/shm_mrsw_hashtable.cc:270-310 | the loop ends, and result, contents and recency list are those of the eviction function; with eviction off, success exactly if the value fits, and what either outcome changes |
| Mrsw.MrswHashtable.SetValue | shmutil/shm_mrsw_hashtable.cc:228-239 | the same for values; an equal stored value is refused and changes nothing; with eviction on, success exactly if the encoding's slots are at most maxslots; with eviction off, exactly if it fits what is free |
| Mrsw.MrswHashtable.GetNextKVPair | shmutil/shm_mrsw_hashtable.cc:133-166 | the next entry with the value whose encoding it starts with, DataMess exactly if there is no such value, the end exactly when no entry is left |
| Mrsw.MrswHashtable.InitLruMem | shmutil/shm_mrsw_hashtable.cc:106-131 | visits the stored keys in table order; succeeds exactly if every stored value starts with some encoding |
| Mrsw.MrswHashtable.InitLruMemCovers | shmutil/shm_mrsw_hashtable.cc:106-131 | after success the recency list names exactly the stored keys |
| Mrsw.MrswHashtable.InitLruMemOrder | shmutil/shm_mrsw_hashtable.cc:106-131 | the key that stands last in the table counts as the most recent |
| Mrsw.SetThenGet | shmutil/shm_mrsw_hashtable.cc:209-239 | what was set is read back exactly if its length is below 2^32 |

## Left out

- Shared memory itself, files, `errno` as a global, messages on stderr, and null or uninitialised objects: results are an error datatype, memory is arrays, and every object is an initialised one. A table has at least one slot.
- `flock` and `MutexLock`: mutual exclusion is assumed, so the locked variants are one producer and one consumer at a time.
- Weak memory ordering of the volatile cursors, and the atomicity of the library's counters, which are single steps here.
- `clearMQ` beside a running producer or consumer, which happens only while both sides rest, and how a clearing process is found alive: `Check` takes the answer as given.
- Which value a hash-table reader in another process sees while the writer is at work: only its bounded reading is modelled.
- The body of `qhashmurmur3_32` and of `QMD5Transform`: both are arbitrary functions here.
- Keys longer than 96 bytes, which are only told apart up to an MD5 match, and the `putstr`, `putint`, `getint` forms.
- Md5.QMD5Context.Update: calls that never return (`BlocksStopIff`), which leave no state to speak of.
- HashArr.HashArr.Put: keys above 96 bytes; and what later calls do to a table that holds an empty value, whose head keeps whatever size its slot had before.
- HashArr.HashArr.PutData, HashArr.HashArr.PutLeader, HashArr.HashArr.PutDisplaced: keys above 96 bytes.
- TableRuns.Apply: puts of keys above 96 bytes, and of empty values, after which the counters are wrong.
- TableRuns.Replay: runs with such puts.
- Mrsw.MrswHashtable.StoreEncoded, Mrsw.MrswHashtable.SetValue, Mrsw.SetThenGet: keys above 96 bytes.
- SlotReader.GetData: a failing memory allocation, and data areas changed in the middle of one slot's copy.
- ValueCodec.VerifyIffPrefix: stored strings of fewer than four bytes, which the code reads beyond their end and which the wrapper never stores.
- MsgQueueSpsc.DeliveredIsPrefix: what the reader does after a failed check (it clears the queue) appears only as a flag, which is proved never to be raised.
