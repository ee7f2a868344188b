# Verification of libevent's buffers and of the food order server

This project models the parts of the repository whose behaviour depends on state that many
functions share, and proves what those parts promise.

* **evbuffer** (`Bytes`, `Chains`, `EvBuffers`, `EvBufferAdd`, `EvBufferDrain`, `EvBufferMove`,
  `EvBufferRemove`, `EvBufferPullup`, `EvBufferExpand`, `EvBufferSingle`, `EvBufferReserve`,
  `EvBufferSearch`, `EvBufferRun`, `EvBufferGaps`). A byte queue kept as a linked list of chunks with slack at both
  ends, a cached length, a cached last chunk and `last_with_datap`. Chains and buffers are classes;
  `last_with_datap` is the chain whose `next` field it points at, or null for `&buf->first`. Every
  operation is proved against the flat byte string `Contents()`, and keeps `Valid()`, which is the
  description in `evbuffer-internal.h`, or says exactly when it does. `NoGap()` is the further
  invariant that no empty chain lies before the last one with data; every operation says whether it
  keeps it. `EvBufferRun` puts the operations together: whole runs against the same runs on a flat
  string. `EvBufferGaps` runs from a new buffer to the ones for which an operation fails.
* **Thread pool** (`JobQueues`, `ThreadPool`). The linked job queue as a class, and the pool as an
  interleaving of any number of workers and callers, one program counter each, over the queue's
  mutex, the counter's mutex, the binary semaphore and both condition variables, with wakeups that
  no signal caused. A step is one critical section of the semaphore's mutex, or what a thread does
  between two lock operations.
* **DNS names** (`DnsNames`, `DnsRoundTrip`, `DnsCompression`, `DnsRuns`). The encoder with its
  compression table and the decoder, over arrays; sections 3.1 and 4.1.4 of RFC 1035.
  `DnsCompression` says when a name can be encoded, how long it then is and what the table learns from
  it; `DnsRuns` writes whole messages into an array and reads them back.
* **DNS requests** (`RequestRings`, `Lists`, `EvdnsRequests`). The circular lists, and the scheduler
  of requests in flight and waiting. `EvdnsRequests` keeps each list as a sequence, whose first
  element is the list's head; `RequestRings` shows that the pointer operations do to the circle what
  appending and `Without` do to the sequence.
* **Rate limits** (`RateLimit`, `RateRuns`). Token buckets with wrapping ticks, groups and their
  suspension, and bounds over whole runs.
* **Tagged data** (`TagCodec`, `Tagging`, `TagRuns`). Tags, nibble-packed integers and records, in
  arrays and in evbuffers; `TagRuns` sends lists of records through an evbuffer.
* **Event base** (`EventBases`, `CommonTimeouts`). Queues, flags and counters; ordered timeout lists.
* **Random numbers** (`Arc4`) and **order assignment** (`Orders`).

A parameter `mem` says whether `malloc` succeeds during the call; each modelled operation that has
it allocates at most once. Sizes are those of a platform with 64-bit `size_t`. The lengths of two
buffers that are joined are taken to fit one `size_t` together, as their bytes are in one address
space.

Where the code and its comments differ, the model follows the code. The comment at the head of
`event_tagging.c` shows tag 0x166 as the bytes 82 66 and calls the nibbles big-endian; the code
writes the least significant group, and the least significant nibble, first. The comment on
`evbuffer_expand_fast_` says that it never moves data; it does realign empty chains. `name_parse`
reads the label types 01 and 10, which section 4.1.4 of RFC 1035 reserves, as pointers too
(`DnsNames.ReservedBits`).

What the proofs show to fail, each with the exact condition and an input that fails:

* `advance_last_with_data` stops at the first empty chain. It finds the last chain with data exactly
  when none lies between (`Bytes.AdvanceExact`). `Listed()` is `Valid()` without the claim about
  `last_with_datap`; it always holds.
  * `evbuffer_remove_buffer`, up to its call of `evbuffer_add` for the last bytes, moves the right bytes
    whatever the chains are, and leaves both links right exactly for the sources of
    `EvBufferRemove.LinksFollow` (`SplitFront`). `GapThatMoves` and `GapThatStays` are sources for
    which it does not, reached from new buffers by `EvBufferGaps.MovedGap` and
    `EvBufferGaps.StayedGap`; `GapThatFollows` is one with a gap for which it does.
  * `evbuffer_commit_space` through one vector into the last chain leaves the link right exactly when
    at most one chain lies behind the last one with data (`EvBufferReserve.CommitSpace`,
    `ThirdChainLost`, reached by `EvBufferGaps.LostThird`).
  * `PrependBuffer` says exactly when `NoGap()` survives it.
* A one-vector reserve can return the empty chain behind a last chain with data that still has
  space. The commit of what was reserved is refused exactly when the buffer before the reserve had
  such a chain, large enough, with more chains behind it (`EvBufferSingle.SettlesInside`,
  `EvBufferSingle.ReserveAndCommit`); `EvBufferGaps.RefusedVector` is a run that ends so.
* A caller can sleep in `thpool_wait` for ever once all is quiet. In no run of a pool anybody does,
  exactly when the pool has at most one caller, and workers if it has one
  (`ThreadPool.WaitSafeExactly`). `ThreadPool.SecondWaiterStuck` is the run that fails for any number
  of workers and two callers or more, `ThreadPool.NoWorkersStuck` the one without workers.
* A name with an empty label does not come back from its encoding (`DnsRoundTrip.PlainName`,
  `DnsRoundTrip.EmptyLabelLost`).
* `dnsname_to_labels` writes the closing zero without a look at the buffer's length. It comes to stand
  behind that length exactly when a name that does not end in a dot, and none of whose endings is
  shared, fits exactly (`DnsNames.EncodeFits`, `DnsNames.ZeroBehindTwo`).
* The loop of `decode_tag_internal` looks at a sixth byte, and never uses it, exactly for an overlong
  tag with more bytes behind it (`TagCodec.DecodeTagLoop`, `Tagging.SixthByteSeen`).
* `ev_token_bucket_update_` computes the capped sum exactly for buckets that are not over-full
  (`RateLimit.AddTokensExact`); giving tokens back can make one over-full (`RateLimit.OverFilled`).
* A record that arrives in two pieces, with an attempt to unmarshal it behind each, is read by the
  second attempt exactly when the first piece ends before the end of the tag: a complete tag is taken
  off the buffer even when what follows is not there yet (`TagRuns.SecondTry`, `TagRuns.SendInPieces`).
* `evtag_consume` and `evtag_peek_length` part for payloads of 2 GB and more
  (`Tagging.PeekedIsConsumed`, `Tagging.LargeRecordConsumed`).
* Raising the limit of DNS requests in flight does not start the pump: `SetMaxRequestsInflight` says
  exactly when nothing waits in vain afterwards, and `EvdnsRequests.RaisedLimitWaits` is a case.
* The shortfall message of an order goes out exactly when the number of dishes handed out, cook by
  cook, never comes to the number ordered. It tells whether a dish stays NEW exactly when as many
  dishes are wanted as numbers were ordered, or the number is never met and some wanted dish cannot
  be made by any free cook: both settled before the first cook is asked (`Orders.MessageExact`,
  `Orders.CustOrder`). `Orders.EarlierDishUntold` is an order that is not told.

## Model

| member | source | states |
|---|---|---|
| Chains.Capacity | food-sys/libevent-2.1.8-stable/buffer.c:161-182 | a request gets a capacity of at least its size that is itself allocatable, and less than twice what was asked for below the doubling limit |
| Chains.CapacityExact | food-sys/libevent-2.1.8-stable/buffer.c:166-179 | below the doubling limit chunk and header together are the least power of two times 1024 bytes that holds them |
| Chains.ChainNew | food-sys/libevent-2.1.8-stable/buffer.c:155-192 | allocation fails exactly for a request beyond the limit or without memory; otherwise an empty, unlinked chunk of the rounded-up capacity |
| Chains.Chain.Append | food-sys/libevent-2.1.8-stable/buffer.c:1760-1768 | writing behind the data extends the chunk's bytes at the end |
| Chains.Chain.Prepend | food-sys/libevent-2.1.8-stable/buffer.c:1854-1861 | writing before the data extends the chunk's bytes at the front |
| Chains.Chain.Align | food-sys/libevent-2.1.8-stable/buffer.c:1902-1909 | moving the data to the start of the allocation keeps the bytes |
| Bytes.LastWithDataUnique | food-sys/libevent-2.1.8-stable/evbuffer-internal.h:84-97 | at most one chain answers the documented description of last_with_data |
| EvBuffers.EvBuffer.constructor | food-sys/libevent-2.1.8-stable/buffer.c:360-374 | a new buffer is empty and satisfies the documented invariant |
| EvBuffers.EvBuffer.Cursor | food-sys/libevent-2.1.8-stable/evbuffer-internal.h:84-97 | in every valid buffer last_with_datap leads to the last chain with data, or to the first chain, or to nothing |
| EvBuffers.EvBuffer.FreeTrailingEmptyChains | food-sys/libevent-2.1.8-stable/buffer.c:289-302 | the link returned is the one to the first empty chain at or behind the last one with data |
| EvBuffers.EvBuffer.ChainInsert | food-sys/libevent-2.1.8-stable/buffer.c:307-326 | the contents grow by the new chain's bytes; the trailing empty chains are gone; last, length and last_with_datap are right again |
| EvBufferAdd.Add | food-sys/libevent-2.1.8-stable/buffer.c:1722-1817 | contents become contents ++ data, or stay as they are with -1; -1 when frozen or too long, 0 whenever memory suffices |
| EvBufferAdd.AddTo | food-sys/libevent-2.1.8-stable/buffer.c:1754-1813 | fill, realign-and-fill, or spill into a new chain of the size the growth rule gives all append the same bytes; -1 only without memory |
| EvBufferAdd.SpillInto | food-sys/libevent-2.1.8-stable/buffer.c:1791-1809 | splitting the bytes over the old last chain and a new one appends them in order |
| EvBufferAdd.Realign | food-sys/libevent-2.1.8-stable/buffer.c:1769-1776 | realigning the last chain with data keeps buffer and contents |
| EvBufferAdd.Prepend | food-sys/libevent-2.1.8-stable/buffer.c:1819-1899 | contents become data ++ contents; when no chain can be allocated exactly the bytes that fitted before the first chain have been written |
| EvBufferAdd.PrependBefore | food-sys/libevent-2.1.8-stable/buffer.c:1843-1895 | the same, once there is a first chain; -1 only without memory |
| EvBufferAdd.LinkFirst | food-sys/libevent-2.1.8-stable/buffer.c:1876-1891 | a new first chain keeps last and last_with_datap right |
| EvBufferDrain.Drain | food-sys/libevent-2.1.8-stable/buffer.c:1095-1161 | the first len bytes go, or all; a frozen non-empty buffer refuses and stays |
| EvBufferDrain.DrainWalk | food-sys/libevent-2.1.8-stable/buffer.c:1125-1151 | the walk ends at the chain that keeps data, with the bytes left to take off it and the repaired link |
| EvBufferDrain.CopyoutFrom | food-sys/libevent-2.1.8-stable/buffer.c:1184-1249 | the bytes copied are the contents from the position on, cut at the end; -1 for a frozen buffer or a length beyond the signed range |
| EvBufferDrain.CopyChains | food-sys/libevent-2.1.8-stable/buffer.c:1221-1243 | the chunk-wise copy is a stretch of the flat contents |
| EvBufferDrain.Copyout | food-sys/libevent-2.1.8-stable/buffer.c:1178-1182 | the first min(datlen, length) bytes, in front |
| EvBufferDrain.Remove | food-sys/libevent-2.1.8-stable/buffer.c:1164-1176 | what is handed out followed by what is left is what was there; the count is truncated to an int |
| EvBufferRun.Step | food-sys/libevent-2.1.8-stable/buffer.c:1095-1249 | each of six operations does to the chained buffer, whatever its chains and frozen ends, what it does to a flat byte string, return value included; without memory it leaves what Refused says |
| EvBufferRun.Run | food-sys/libevent-2.1.8-stable/buffer.c:1722-1899 | every sequence of add, prepend, drain, copyout, remove and pullup on any valid buffer takes a course the flat string can take, hands out the same bytes and keeps the invariant, whichever allocations fail |
| EvBufferRun.CourseIsFlat | food-sys/libevent-2.1.8-stable/buffer.c:1722-1899 | where no allocation fails the only course is that of the flat string |
| EvBufferRun.Fifo | food-sys/libevent-2.1.8-stable/buffer.c:1164-1176 | first in, first out: over a run that adds at the back and removes at the front, bytes out ++ bytes left == bytes at first ++ bytes in |
| EvBufferMove.CopyChain | food-sys/libevent-2.1.8-stable/buffer.c:869-881 | the empty target takes over the source's list as it is |
| EvBufferMove.AppendChain | food-sys/libevent-2.1.8-stable/buffer.c:883-900 | the target's list goes on with the source's, and last_with_datap crosses the seam correctly |
| EvBufferMove.AddBuffer | food-sys/libevent-2.1.8-stable/buffer.c:960-1004 | outbuf ++ inbuf and an empty inbuf; nothing moves on -1; no chain is in both |
| EvBufferMove.PrependChain | food-sys/libevent-2.1.8-stable/buffer.c:942-958 | the source's list goes first, last_with_datap repaired in each case |
| EvBufferMove.PrependBuffer | food-sys/libevent-2.1.8-stable/buffer.c:1049-1093 | inbuf ++ outbuf; "no empty chain before the last one with data" survives exactly when the moved list had no empty chain and the target had none before its last data; an empty target takes over the list as it is |
| Bytes.AdvanceExact | food-sys/libevent-2.1.8-stable/buffer.c:702-716 | stopping at the first empty chain finds the last chain with data exactly when no empty chain lies between |
| Bytes.AdvanceBehind | food-sys/libevent-2.1.8-stable/buffer.c:702-716 | for a list put behind another: found exactly when no empty chain of it stands before one with data, its first chain apart if the other list is empty of data |
| Bytes.AdvanceToEnd | food-sys/libevent-2.1.8-stable/buffer.c:739-743 | for bytes put into the last chain: found exactly when at most one chain lies behind the last one with data |
| EvBufferRemove.AdvanceLastWithData | food-sys/libevent-2.1.8-stable/buffer.c:702-716 | from a chain on, the link moves to where the first empty chain follows |
| EvBufferRemove.RemoveWalk | food-sys/libevent-2.1.8-stable/buffer.c:1287-1299 | the walk yields the first chain not moved whole, the bytes left for it and the repaired link |
| EvBufferRemove.TakeOver | food-sys/libevent-2.1.8-stable/buffer.c:1301-1318 | the whole chains move to the target and its last chain and length are right; last_with_datap is right exactly when no empty chain stands before a moved one with data |
| EvBufferRemove.SplitFront | food-sys/libevent-2.1.8-stable/buffer.c:1287-1331 | whole chains and leftover bytes together are the first datlen bytes, the source keeps exactly the rest, and both links are right exactly for the sources of LinksFollow |
| EvBufferRemove.NoGapFollows | food-sys/libevent-2.1.8-stable/buffer.c:1287-1318 | sources without an empty chain before the last one with data are all right |
| EvBufferRemove.GapThatFollows | food-sys/libevent-2.1.8-stable/buffer.c:1287-1318 | so are some with one |
| EvBufferRemove.GapThatMoves | food-sys/libevent-2.1.8-stable/buffer.c:1305-1314 | a source whose moved chains leave the target with its link before data |
| EvBufferRemove.GapThatStays | food-sys/libevent-2.1.8-stable/buffer.c:1296-1301 | a source whose own link is reset although its first chain stays |
| EvBufferRemove.RemoveBuffer | food-sys/libevent-2.1.8-stable/buffer.c:1254-1342 | for exactly those sources: dst ++ the first min(n, length) bytes of src, and the rest stays; without memory exactly the bytes that were not moved as whole chains are lost; no chain is in both; what is frozen stays so |
| EvBufferPullup.PullLoop | food-sys/libevent-2.1.8-stable/buffer.c:1414-1428 | the chains copied into the front chain, and the two flags about last_with_datap |
| EvBufferPullup.PullFinish | food-sys/libevent-2.1.8-stable/buffer.c:1430-1449 | last_with_datap is repaired in every removal case |
| EvBufferPullup.Pullup | food-sys/libevent-2.1.8-stable/buffer.c:1344-1454 | contents never change; for 0 < size <= length the first chain then holds the first size bytes, unless memory is short; it is the old first chain exactly when that one's allocation is long enough, and nothing is allocated then |
| EvBufferExpand.ScanSpace | food-sys/libevent-2.1.8-stable/buffer.c:2060-2085 | the scan either proves enough room in n chains, or ran off the end, or used n chains |
| EvBufferExpand.ExpandBehind | food-sys/libevent-2.1.8-stable/buffer.c:2090-2104 | one more chain at the end gives the room |
| EvBufferExpand.ExpandNuke | food-sys/libevent-2.1.8-stable/buffer.c:2105-2146 | replacing all empty chains by one gives the room; on failure exactly the chains up to the last one with data stay |
| EvBufferExpand.ExpandFast | food-sys/libevent-2.1.8-stable/buffer.c:2039-2147 | contents unchanged, and at least datlen writable bytes in at most n chains; -1 only without memory; a list with fewer than n chains from the last one with data on keeps them and gains at most one, of the capacity for what was missing |
| EvBufferExpand.RoomCovers | food-sys/libevent-2.1.8-stable/buffer.c:2060-2085 | spaces that use at most n chains add up to no more than the room of n chains |
| EvBufferSingle.Replace | food-sys/libevent-2.1.8-stable/buffer.c:1999-2024 | the copied chain takes the old one's place in the list and in the cached ends |
| EvBufferSingle.ExpandUsed | food-sys/libevent-2.1.8-stable/buffer.c:1966-2024 | realign, use the next chain, add a chain or replace the chain: the result has the room and the contents stay; unless it settled for the next of more chains the result can be committed |
| EvBufferSingle.ExpandSingle | food-sys/libevent-2.1.8-stable/buffer.c:1927-2035 | contents unchanged, and the chain returned is the last one with data or the next one, with datlen bytes of space |
| EvBufferReserve.ReadSetupVecs | food-sys/libevent-2.1.8-stable/buffer.c:2213-2247 | the vectors describe the space of consecutive chains from the first one with space on, all of it unless asked to be exact; they hold what was asked for, and without the last one would not |
| EvBufferReserve.ReserveSpace | food-sys/libevent-2.1.8-stable/buffer.c:669-700 | for two vectors or more: at most n vectors of whole spaces, enough bytes in all and not without the last one, contents unchanged |
| EvBufferSingle.ReserveOne | food-sys/libevent-2.1.8-stable/buffer.c:681-688 | for one vector: it is the whole space of the last chain with data or of the next one, and long enough |
| EvBufferReserve.CheckVecs | food-sys/libevent-2.1.8-stable/buffer.c:755-765 | pass 1 accepts exactly vectors that describe the space chain by chain |
| EvBufferReserve.CommitVecs | food-sys/libevent-2.1.8-stable/buffer.c:766-775 | pass 2 appends exactly the committed prefixes, in order, each to its own chain |
| EvBufferReserve.CommitSpace | food-sys/libevent-2.1.8-stable/buffer.c:718-786 | 0 exactly when the end is not frozen and the vectors are acceptable, and then contents ++ the committed bytes, each vector's in its own chain; -1 changes nothing; last_with_datap is wrong afterwards exactly for bytes in the last of three or more chains from the last one with data on, committed through one vector |
| EvBufferReserve.ThirdChainLost | food-sys/libevent-2.1.8-stable/buffer.c:734-745 | three chains of which the first has data: a byte committed into the third is behind the link |
| EvBufferSingle.OneVectorCommits | food-sys/libevent-2.1.8-stable/buffer.c:734-763 | the vector of a one-vector reserve is committable exactly when its chain is the last one or the first one with space |
| EvBufferSingle.ReserveRefused | food-sys/libevent-2.1.8-stable/buffer.c:681-763 | where expanding settles for the next chain and more follow, committing what was reserved is refused and the view stays |
| EvBufferSingle.ReserveAndCommit | food-sys/libevent-2.1.8-stable/buffer.c:681-763 | a reserve of one vector followed by a commit of any part of it succeeds exactly when the buffer before the reserve was not one where expanding settles for a chain with more behind it |
| EvBufferGaps.EmptyChains | food-sys/libevent-2.1.8-stable/buffer.c:669-700 | k reserves, each for a byte more than there is, give a new buffer k empty chains |
| EvBufferGaps.MovedGap | food-sys/libevent-2.1.8-stable/buffer.c:1287-1318 | from a new buffer, by reserving and committing, to a source whose move leaves a wrong link |
| EvBufferGaps.StayedGap | food-sys/libevent-2.1.8-stable/buffer.c:1287-1318 | likewise to a source whose own link is reset |
| EvBufferGaps.LostThird | food-sys/libevent-2.1.8-stable/buffer.c:734-745 | likewise to a buffer whose link is wrong after a commit through one vector |
| EvBufferGaps.RefusedVector | food-sys/libevent-2.1.8-stable/buffer.c:681-763 | likewise to a one-vector reserve whose commit is refused |
| EvBufferSearch.Strchr | food-sys/libevent-2.1.8-stable/buffer.c:1466-1486 | the first occurrence of a byte at or behind a position, across chains, or none |
| EvBufferSearch.FindEolChar | food-sys/libevent-2.1.8-stable/buffer.c:1488-1513 | the 128-byte stepping finds the first CR or LF |
| EvBufferSearch.FindEol | food-sys/libevent-2.1.8-stable/buffer.c:1515-1535 | the first CR or LF across chains, or none |
| EvBufferSearch.SpanMaximal | food-sys/libevent-2.1.8-stable/buffer.c:1537-1574 | the span is all in the set and cannot be longer |
| EvBufferSearch.Strspn | food-sys/libevent-2.1.8-stable/buffer.c:1537-1574 | counts the longest run of bytes in the set |
| EvBufferSearch.Getchr | food-sys/libevent-2.1.8-stable/buffer.c:1577-1587 | the byte of the flat contents at the position, or -1 at the end |
| EvBufferSearch.PtrSet | food-sys/libevent-2.1.8-stable/buffer.c:2609-2659 | each offset maps to the chain and position that holds that byte; out of range and overflowing offsets are refused |
| EvBufferSearch.PtrSubtract | food-sys/libevent-2.1.8-stable/buffer.c:2589-2607 | stepping back lands on the matching chain and position; -1 and the same position for a negative one or a step beyond the front |
| EvBufferSearch.PtrMemcmp | food-sys/libevent-2.1.8-stable/buffer.c:2665-2699 | the sign of the first difference from the flat contents, 0 exactly for a match, -1 when the position is negative or the string does not fit |
| EvBufferSearch.SearchRange | food-sys/libevent-2.1.8-stable/buffer.c:2707-2769 | the leftmost match that lies wholly in the range, even across chains, or not-found when there is none |
| EvBufferSearch.SearchEol | food-sys/libevent-2.1.8-stable/buffer.c:1589-1677 | the leftmost line end of each style and its length |
| EvBufferSearch.Readln | food-sys/libevent-2.1.8-stable/buffer.c:1679-1716 | contents == line ++ terminator ++ rest at the leftmost terminator; no line exactly when frozen, without memory, or without a terminator at a position an ev_ssize_t can tell |
| JobQueues.JobQueue.Push | food-sys/thpool.c:434-455 | the linked queue grows by the job at the rear, and the semaphore is up |
| JobQueues.JobQueue.Pull | food-sys/thpool.c:465-491 | the front job leaves, the rest stay in order, and the semaphore is posted again exactly when jobs remain |
| JobQueues.JobQueue.Clear | food-sys/thpool.c:418-429 | the queue is empty and the semaphore down |
| ThreadPool.InvKept | food-sys/thpool.c:349-378 | every step of every thread keeps locks, counters, jobs and wakeups consistent |
| ThreadPool.Always | food-sys/thpool.c:434-551 | in every state of every interleaving the invariant holds |
| ThreadPool.PulledInOrder | food-sys/thpool.c:434-491 | jobs are pulled in the order they were pushed, and each is queued, or held by one worker, or done |
| ThreadPool.NoStrandedJob | food-sys/thpool.c:465-551 | with jobs queued and rwmutex free, the semaphore is up or a worker is between bsem_wait and its pull |
| ThreadPool.WakeupsKept | food-sys/thpool.c:526-551 | when the semaphore is up, not every worker is asleep without a signal |
| ThreadPool.HoldersGoOn | food-sys/thpool.c:349-551 | a thread that holds a mutex can always step |
| ThreadPool.QuiescentDone | food-sys/thpool.c:349-378 | when no thread can step every worker sleeps and every job has been done exactly once |
| ThreadPool.RunsEnd | food-sys/thpool.c:349-378 | without new calls every schedule comes to rest within a bound given by the state |
| ThreadPool.ReachesRest | food-sys/thpool.c:349-378 | from every reachable state the threads can come to rest |
| ThreadPool.WaitReturns | food-sys/thpool.c:197-203 | thpool_wait returns only when every job queued before the call has finished, for any number of waiters |
| ThreadPool.WaiterWoken | food-sys/thpool.c:370-375 | with at most one caller of thpool_wait at a time nobody sleeps there once all is quiet |
| ThreadPool.SecondWaiterStuck | food-sys/thpool.c:370-375 | for any number of workers and two callers or more: a run after which one caller sleeps on although every job is done, as only one is signalled |
| ThreadPool.NoWorkersStuck | food-sys/thpool.c:349-378 | without workers any caller can sleep behind a job |
| ThreadPool.WaitSafeExactly | food-sys/thpool.c:197-203 | over all pool sizes and all runs: nobody sleeps in thpool_wait once all is quiet exactly when there is at most one caller, and a worker if there is one |
| DnsNames.NameParse | food-sys/libevent-2.1.8-stable/evdns.c:959-1013 | success exactly when the message holds a name at idx that fits the output; then the text, its zero and the new index; ends on arbitrary bytes |
| DnsNames.Walk | food-sys/libevent-2.1.8-stable/evdns.c:977-1003 | a name that is read ends strictly behind its start and within the message |
| DnsNames.ReservedBits | food-sys/libevent-2.1.8-stable/evdns.c:981-992 | label types 01 and 10 are read as pointers |
| DnsNames.SelfPointer | food-sys/libevent-2.1.8-stable/evdns.c:988-990 | a pointer to itself is malformed, whatever the number of pointers allowed |
| DnsNames.LabelTable.GetPos | food-sys/libevent-2.1.8-stable/evdns.c:1559-1568 | the position of the first entry with this name, or -1 exactly when there is none |
| DnsNames.LabelTable.Add | food-sys/libevent-2.1.8-stable/evdns.c:1571-1586 | the entry is appended while the table has fewer than 128, and nothing changes otherwise |
| DnsNames.PutNextLabel | food-sys/libevent-2.1.8-stable/evdns.c:1630-1653 | one label: too long, no room, or length byte, bytes and table entry |
| DnsNames.DnsnameToLabels | food-sys/libevent-2.1.8-stable/evdns.c:1599-1663 | error codes and bytes of the encoding; nothing outside the name is touched on success; bufLen bytes suffice unless ZeroBehind says otherwise |
| DnsNames.EncodeFits | food-sys/libevent-2.1.8-stable/evdns.c:1656-1660 | an encoding ends at most one byte behind the length given, and does so exactly for names that fit exactly, do not end in a dot and share no ending |
| DnsNames.ZeroBehindTwo | food-sys/libevent-2.1.8-stable/evdns.c:1656-1660 | the name "a" in two bytes |
| DnsCompression.EncodeExact | food-sys/libevent-2.1.8-stable/evdns.c:1599-1663 | a name can be encoded exactly when no label that is written out has more than 63 bytes and the labels, and the pointer if an ending is known, fit; -1 exactly when the first obstacle is a label, -2 otherwise |
| DnsCompression.EntriesMade | food-sys/libevent-2.1.8-stable/evdns.c:1630-1653 | while the table has room, every ending whose first label is written out is entered with the offset of that label |
| DnsCompression.EntriesOnly | food-sys/libevent-2.1.8-stable/evdns.c:1630-1653 | and nothing else is |
| DnsCompression.SharedLength | food-sys/libevent-2.1.8-stable/evdns.c:1622-1629 | a name whose longest known ending starts at byte k takes k + 2 bytes, the last two a pointer to an entry for that ending |
| DnsCompression.SpelledLength | food-sys/libevent-2.1.8-stable/evdns.c:1599-1663 | a name of which no ending is known takes its length plus two bytes, or plus one if it is empty or ends in a dot |
| DnsCompression.SecondTime | food-sys/libevent-2.1.8-stable/evdns.c:1622-1629 | a name written while the table had room is a pointer to its first place from then on, or -2 when two bytes do not fit |
| DnsCompression.PointerFollowed | food-sys/libevent-2.1.8-stable/evdns.c:981-992 | reading that pointer goes on where the name was written first |
| DnsRoundTrip.TextOfLabels | food-sys/libevent-2.1.8-stable/evdns.c:959-1013 | the labels read back spell the name exactly when the name has no empty label |
| DnsRoundTrip.EncodeReads | food-sys/libevent-2.1.8-stable/evdns.c:1599-1663 | what is written reads as the name's labels, and every new table entry points at bytes that read as its suffix |
| DnsRoundTrip.AllReadBack | food-sys/libevent-2.1.8-stable/evdns.c:1599-1663 | all names written through one table below offset 0x4000 read back, and every entry of the table is right |
| DnsRoundTrip.RoundTrip | food-sys/libevent-2.1.8-stable/evdns.c:959-1013 | for names without empty labels, name_parse gives back the text and the encoder's end offset |
| DnsRuns.WriteAll | food-sys/libevent-2.1.8-stable/evdns.c:1917-1960 | the array holds the message of the names and gaps written so far, and it fails exactly when some name cannot be encoded |
| DnsRuns.WriteAndRead | food-sys/libevent-2.1.8-stable/evdns.c:959-1663 | names without empty labels, written through one table into an array, come back from it with their text and the writer's end offset |
| DnsRuns.WriteTwice | food-sys/libevent-2.1.8-stable/evdns.c:1917-1960 | a name written twice into an array through a new table, as a question and its answer are: the second time it is the bytes C0 00 |
| DnsRoundTrip.PlainName | food-sys/libevent-2.1.8-stable/evdns.c:1599-1663 | without compression, the end offsets agree exactly when no inner label is empty, and the texts agree exactly when no label is |
| DnsRoundTrip.EmptyLabelLost | food-sys/libevent-2.1.8-stable/evdns.c:1599-1663 | the name "a..b" comes back as another text, and ends before its encoding does |
| DnsRoundTrip.WalkGrows | food-sys/libevent-2.1.8-stable/evdns.c:977-1003 | bytes added behind, and more jumps allowed, do not change a name that reads |
| RequestRings.Insert | food-sys/libevent-2.1.8-stable/evdns.c:2720-2734 | insertion at the tail of the circular list |
| RequestRings.Remove | food-sys/libevent-2.1.8-stable/evdns.c:2682-2717 | removal from the circular list, the head moving on when it is the one |
| Lists.WithoutIsCut | food-sys/libevent-2.1.8-stable/evdns.c:2708-2716 | taking an element out of a list without repetitions is cutting at its one place |
| EvdnsRequests.DnsBase.FindFromTransId | food-sys/libevent-2.1.8-stable/evdns.c:468-483 | finds a request with this id exactly when one is in flight |
| EvdnsRequests.DnsBase.NameserverPick | food-sys/libevent-2.1.8-stable/evdns.c:1334-1367 | the first server that is up from the head on, and the head moves behind it; the next one when none is up; none exactly when there are no servers |
| EvdnsRequests.PicksGoRound | food-sys/libevent-2.1.8-stable/evdns.c:1331-1350 | load balancing: with every server up, the m-th of any number of picks in a row is server (head + m) modulo their number |
| EvdnsRequests.PicksShareLoad | food-sys/libevent-2.1.8-stable/evdns.c:1331-1367 | with servers down, the m-th pick in a row is entry m, modulo their number, of the servers that are up from the head on: none is picked again before all the others have been |
| EvdnsRequests.DnsBase.TransactionIdPick | food-sys/libevent-2.1.8-stable/evdns.c:1317-1329 | the id is not 0xffff and not in flight; such an id exists below the limit |
| EvdnsRequests.DnsBase.Submit | food-sys/libevent-2.1.8-stable/evdns.c:2823-2841 | exactly when there is room and a server: in flight under a free id at the server whose turn it is, and the turn goes on; else at the end of the waiting list, and nothing else changes |
| EvdnsRequests.SubmitAll | food-sys/libevent-2.1.8-stable/evdns.c:2813-2841 | k queries submitted in a row, with room for all and every server up, go round the list of servers |
| EvdnsRequests.DnsBase.Finished | food-sys/libevent-2.1.8-stable/evdns.c:648-706 | exactly this request is gone, nobody else's place in flight changes, and the pump has filled the room from the front of the waiting list, each to the server picked for it |
| EvdnsRequests.DnsBase.PumpOne | food-sys/libevent-2.1.8-stable/evdns.c:747-768 | the request that waited longest goes in flight under a new id at the server given |
| EvdnsRequests.DnsBase.Pump | food-sys/libevent-2.1.8-stable/evdns.c:742-770 | those that waited longest go, in order, each to the server whose turn it is; no request is lost; it stops only at the limit, with nothing waiting, or with no nameserver |
| EvdnsRequests.LaunchedGoRound | food-sys/libevent-2.1.8-stable/evdns.c:742-770 | with every server up, what the pump launches goes round the list of servers |
| EvdnsRequests.DnsBase.SwapNs | food-sys/libevent-2.1.8-stable/evdns.c:544-553 | the request changes server and both servers' counters follow |
| EvdnsRequests.DnsBase.Rehash | food-sys/libevent-2.1.8-stable/evdns.c:3400-3411 | all requests in flight move to the list of their id among the new ones |
| EvdnsRequests.DnsBase.SetMaxRequestsInflight | food-sys/libevent-2.1.8-stable/evdns.c:3385-3414 | the request set, ids and counters survive the change of the number of lists; nothing waits in vain exactly when the new limit is reached, nobody waits or there is no server |
| EvdnsRequests.RaisedLimitWaits | food-sys/libevent-2.1.8-stable/evdns.c:3385-3414 | one in flight, one waiting, and the limit raised to two: it goes on waiting |
| EvdnsRequests.DnsBase.CountersSum | food-sys/libevent-2.1.8-stable/evdns.c:648-706 | the servers' own counters sum to the number in flight |
| EvdnsRequests.FreeId | food-sys/libevent-2.1.8-stable/evdns.c:1317-1329 | with fewer than 65535 requests in flight some id is free |
| RateLimit.CfgNew | food-sys/libevent-2.1.8-stable/bufferevent_ratelim.c:142-173 | accepts exactly 1 <= rate <= burst <= the signed maximum on both sides |
| RateLimit.AddTokensExact | food-sys/libevent-2.1.8-stable/bufferevent_ratelim.c:87-105 | the division form equals min(maximum, limit + ticks * rate) over the integers exactly for buckets that are not over-full (or so over-full that the ticks wrap 64 bits) |
| RateLimit.OverFilled | food-sys/libevent-2.1.8-stable/bufferevent_ratelim.c:971-996 | a bucket of ten holds twelve after tokens were given back |
| RateLimit.TokenBucket.Reinit | food-sys/libevent-2.1.8-stable/bufferevent_ratelim.c:49-71 | re-initialization only clips downwards |
| RateLimit.TokenBucket.Update | food-sys/libevent-2.1.8-stable/bufferevent_ratelim.c:73-111 | both sides updated for the wrapped tick distance; nothing for zero or backward ticks |
| RateLimit.Member.RlimMax | food-sys/libevent-2.1.8-stable/bufferevent_ratelim.c:197-258 | the own limit and the group's share, the smaller of them, never below 0 |
| RateLimit.ShareExact | food-sys/libevent-2.1.8-stable/bufferevent_ratelim.c:228-249 | a group that is not suspended gives each member its equal part, rounded down, and never less than the minimum share; a suspended one nothing |
| RateLimit.Member.DecrementOwn | food-sys/libevent-2.1.8-stable/bufferevent_ratelim.c:281-293 | the bucket is charged; the side is suspended exactly when it is exhausted |
| RateLimit.Member.DecrementLimit | food-sys/libevent-2.1.8-stable/bufferevent_ratelim.c:971-1025 | charges or gives back; the side is suspended or let go exactly when the limit crosses 0 |
| RateLimit.Member.Refill | food-sys/libevent-2.1.8-stable/bufferevent_ratelim.c:393-439 | a side stays suspended exactly when it is still exhausted, and then the timer is set again |
| RateLimit.Group.SetMinShare | food-sys/libevent-2.1.8-stable/bufferevent_ratelim.c:703-722 | never more than one tick's worth of either rate |
| RateLimit.Group.SetCfg | food-sys/libevent-2.1.8-stable/bufferevent_ratelim.c:672-701 | limits clipped to the new maxima and the minimum share adjusted |
| RateLimit.Group.Suspend | food-sys/libevent-2.1.8-stable/bufferevent_ratelim.c:349-371 | exactly the members that can be locked are suspended on this side, and only on it |
| RateLimit.Group.Unsuspend | food-sys/libevent-2.1.8-stable/bufferevent_ratelim.c:474-504 | every member that can be locked is let go exactly once; the rest are noted as pending |
| RateLimit.Group.Decrement | food-sys/libevent-2.1.8-stable/bufferevent_ratelim.c:295-305 | the group's bucket is charged and the group suspended exactly when it is exhausted; every member that can be locked is suspended or let go with it; nobody is left held up behind the group's back |
| RateLimit.Group.RefillCallback | food-sys/libevent-2.1.8-stable/bufferevent_ratelim.c:528-557 | both sides refilled; with somebody pending, or enough for a minimum share, the side and every member that can be locked is let go, and nobody else; nobody is left held up behind the group's back |
| RateRuns.TicksTrue | food-sys/libevent-2.1.8-stable/bufferevent_ratelim.c:78-85 | the wrapped tick counters measure true distances up to INT_MAX and never more than the true distance |
| RateRuns.AdvancedBound | food-sys/libevent-2.1.8-stable/bufferevent_ratelim.c:73-111 | one update adds at most rate per tick, and exactly min(maximum, limit + rate * ticks) for distances the counter can tell |
| RateRuns.OwnBound | food-sys/libevent-2.1.8-stable/bufferevent_ratelim.c:197-293 | over any run the bytes let through are at most what the bucket held plus rate * ticks, and the bucket never goes negative |
| RateRuns.OwnSharp | food-sys/libevent-2.1.8-stable/bufferevent_ratelim.c:197-293 | and that bound is attained, up to the maximum |
| RateRuns.GroupBound | food-sys/libevent-2.1.8-stable/bufferevent_ratelim.c:228-305 | over any run a group lets through at most burst + rate * ticks + one minimum share less one byte |
| RateRuns.GroupSharp | food-sys/libevent-2.1.8-stable/bufferevent_ratelim.c:228-305 | and that bound is attained, overdraft included |
| RateRuns.SuspendedTwoTicks | food-sys/libevent-2.1.8-stable/bufferevent_ratelim.c:528-557 | a suspended group lets its members go after two timer ticks at most |
| RateRuns.Fire | food-sys/libevent-2.1.8-stable/bufferevent_ratelim.c:528-557 | after a tick of a group's timer no member that can be locked is held up by a side that is not suspended |
| RateRuns.TwoTicks | food-sys/libevent-2.1.8-stable/bufferevent_ratelim.c:528-557 | two timer ticks, and every member that can be locked at the second one is let go on both sides |
| TagCodec.EncodeTagInternal | food-sys/libevent-2.1.8-stable/event_tagging.c:173-194 | the loop writes the tag in at most five bytes, least significant group first |
| TagCodec.DecodeTagLoop | food-sys/libevent-2.1.8-stable/event_tagging.c:214-233 | the loop reads exactly the tags that end in time and fit 32 bits, and looks behind the five bytes pulled up exactly for an overlong tag with more bytes buffered |
| TagCodec.TagRoundTrip | food-sys/libevent-2.1.8-stable/event_tagging.c:173-242 | every 32-bit tag comes back, whatever follows it |
| TagCodec.TagGroups | food-sys/libevent-2.1.8-stable/event_tagging.c:173-194 | the bytes of a tag are its digits of base 128, least significant first, and exactly the last one lacks the high bit |
| TagCodec.TagExample | food-sys/libevent-2.1.8-stable/event_tagging.c:173-194 | tag 0x166 is the bytes E6 02 |
| TagCodec.TagFits | food-sys/libevent-2.1.8-stable/event_tagging.c:214-233 | a decoded tag fits 32 bits and took at most five bytes |
| TagCodec.EncodeIntInternal | food-sys/libevent-2.1.8-stable/event_tagging.c:117-138 | the nibble loop writes exactly the encoding |
| TagCodec.DecodeNibbles | food-sys/libevent-2.1.8-stable/event_tagging.c:338-345 | the nibble loop reads exactly the encoded value |
| TagCodec.IntRoundTrip | food-sys/libevent-2.1.8-stable/event_tagging.c:117-350 | every integer of up to 8 or 16 nibbles comes back, whatever follows it |
| TagCodec.IntExample | food-sys/libevent-2.1.8-stable/event_tagging.c:117-138 | 0x123 is the bytes 23 21 |
| TagCodec.DigitsFit | food-sys/libevent-2.1.8-stable/event_tagging.c:120-135 | 32-bit integers need at most 8 nibbles, 64-bit ones at most 16 |
| TagCodec.HeaderFits | food-sys/libevent-2.1.8-stable/event_tagging.c:401-433 | a header's numbers fit 32 bits each, in at most ten bytes |
| TagCodec.RecordRoundTrip | food-sys/libevent-2.1.8-stable/event_tagging.c:256-263 | a marshalled record is read back with the rest untouched |
| TagCodec.StreamRoundTrip | food-sys/libevent-2.1.8-stable/event_tagging.c:256-480 | any list of records, marshalled one after the other, comes back in order; trailing bytes stay |
| TagRuns.MarshalAll | food-sys/libevent-2.1.8-stable/event_tagging.c:256-263 | the contents grow by the stream of the records |
| TagRuns.UnmarshalAll | food-sys/libevent-2.1.8-stable/event_tagging.c:466-480 | n records come off the front exactly when the flat contents start with n readable ones, and they are those |
| TagRuns.SendAll | food-sys/libevent-2.1.8-stable/event_tagging.c:256-480 | any list of records sent through an evbuffer comes back as it was |
| TagRuns.SecondTry | food-sys/libevent-2.1.8-stable/event_tagging.c:437-451 | of a record cut after n bytes nothing can be read; once the rest has come the record is read exactly when n is less than the length of its tag |
| TagRuns.SendInPieces | food-sys/libevent-2.1.8-stable/event_tagging.c:437-480 | the same with an evbuffer |
| Tagging.DecodeTagInternal | food-sys/libevent-2.1.8-stable/event_tagging.c:196-242 | in an evbuffer of any chaining: the tag of the flat contents, drained exactly if asked and the front is not frozen; a sixth byte is looked at exactly for an overlong tag with more behind it |
| Tagging.SixthByteSeen | food-sys/libevent-2.1.8-stable/event_tagging.c:196-242 | six bytes added to a new buffer, of which the sixth is looked at |
| Tagging.DecodeIntInternal | food-sys/libevent-2.1.8-stable/event_tagging.c:315-373 | in an evbuffer, at an offset: the integer of the flat contents, or -1; contents unchanged |
| Tagging.TakeInt | food-sys/libevent-2.1.8-stable/event_tagging.c:375-393 | the integer at the front, drained on success only, and not when the front is frozen |
| Tagging.Marshal | food-sys/libevent-2.1.8-stable/event_tagging.c:256-263 | contents ++ the marshalled record, when the buffer accepts it |
| Tagging.UnmarshalHeader | food-sys/libevent-2.1.8-stable/event_tagging.c:437-451 | tag and length, with exactly the header gone; -1 when the payload is not all there; when the header is not, exactly the bytes of a complete tag are gone; with a frozen front nothing goes and the tag is read again as the length |
| Tagging.Unmarshal | food-sys/libevent-2.1.8-stable/event_tagging.c:466-480 | the payload moves from the front of src to the end of dst; on failure exactly the header, or the complete tag of an incomplete header, is gone; both ends frozen or not |
| Tagging.UnmarshalReads | food-sys/libevent-2.1.8-stable/event_tagging.c:466-480 | with room at the destination, unmarshalling is reading one record off the front |
| Tagging.Consume | food-sys/libevent-2.1.8-stable/event_tagging.c:453-462 | how many bytes go, for every length including those that turn negative and for incomplete headers, and none from a frozen front |
| Tagging.PeekLength | food-sys/libevent-2.1.8-stable/event_tagging.c:401-417 | header plus payload length modulo 2^32, contents unchanged |
| Tagging.PeekedIsConsumed | food-sys/libevent-2.1.8-stable/event_tagging.c:401-462 | the length peeked is the length consumed exactly for payloads below 2 GB, or the odd cases that are spelled out |
| Tagging.LargeRecordConsumed | food-sys/libevent-2.1.8-stable/event_tagging.c:401-462 | a record of 2 GB is peeked at its length and consumed with all that follows |
| EventBases.EventBase.InsertActive | food-sys/libevent-2.1.8-stable/event.c:3325-3344 | at the tail of the callback's priority queue; a second insertion does nothing; counters follow |
| EventBases.EventBase.RemoveActive | food-sys/libevent-2.1.8-stable/event.c:3184-3199 | gone from its queue; flag and both counters follow |
| EventBases.EventBase.InsertActiveLater | food-sys/libevent-2.1.8-stable/event.c:3346-3361 | at the tail of the later queue unless active or later already |
| EventBases.EventBase.RemoveActiveLater | food-sys/libevent-2.1.8-stable/event.c:3200-3214 | gone from the later queue; flag and both counters follow |
| EventBases.EventBase.InsertTimeout | food-sys/libevent-2.1.8-stable/event.c:3363-3385 | in the timeout set, flag and count follow |
| EventBases.EventBase.RemoveTimeout | food-sys/libevent-2.1.8-stable/event.c:3215-3235 | out of the timeout set, flag and count follow |
| EventBases.EventBase.Activate | food-sys/libevent-2.1.8-stable/event.c:2951-2979 | from the later queue or from nowhere to the active queue; never both; the count rises only for a new one, and the maxima with it |
| EventBases.EventBase.ActivateLater | food-sys/libevent-2.1.8-stable/event.c:2981-2992 | 1, and one more callback counted, exactly when it was in neither queue |
| EventBases.EventBase.Del | food-sys/libevent-2.1.8-stable/event.c:2760-2844 | in no queue any more, and the count falls by its memberships; a finalizing event stays |
| EventBases.EventBase.Cancel | food-sys/libevent-2.1.8-stable/event.c:3013-3041 | in neither callback queue any more, everyone else where they were, and the count falls by the memberships given up; a plain callback keeps its other memberships |
| EventBases.EventBase.SetPriority | food-sys/libevent-2.1.8-stable/event.c:2305-2318 | refused for an active event; allowed for one that waits in the later queue |
| EventBases.EventBase.MakeLaterActive | food-sys/libevent-2.1.8-stable/event.c:3387-3400 | each active queue goes on with the later callbacks of its priority, in their order; the deferred ones among them are counted; the other counters need no change |
| EventBases.EventBase.AssertOk | food-sys/libevent-2.1.8-stable/event.c:3920-3939 | the consistency check of these queues passes exactly when flags, priorities and the active count agree with the queues |
| EventBases.EventBase.ValidIsOk | food-sys/libevent-2.1.8-stable/event.c:3920-3939 | it passes in every valid base |
| EventBases.ActiveAdded | food-sys/libevent-2.1.8-stable/event.c:3325-3344 | flags and queues agree after an insertion and the sums grow by one membership |
| CommonTimeouts.PackedRoundTrip | food-sys/libevent-2.1.8-stable/event.c:1354-1373 | index and microseconds packed into tv_usec come out again, and it shows as common exactly for lists that exist |
| CommonTimeouts.PlainIsNotCommon | food-sys/libevent-2.1.8-stable/event.c:1363-1373 | an ordinary tv_usec is never taken for a common timeout |
| CommonTimeouts.Durations.InitCommonTimeout | food-sys/libevent-2.1.8-stable/event.c:1443-1515 | an old list for an old duration, a new one otherwise, of the length the caller means; refused exactly when all 256 are taken by others |
| CommonTimeouts.NormalExact | food-sys/libevent-2.1.8-stable/event.c:1453-1459 | normalising keeps the number of microseconds |
| CommonTimeouts.NotAfterExact | food-sys/libevent-2.1.8-stable/event.c:3286-3307 | comparing times is comparing microseconds |
| CommonTimeouts.PackedOrder | food-sys/libevent-2.1.8-stable/event.c:3279-3307 | packed deadlines of one list compare as what is packed into them |
| CommonTimeouts.TimeoutList.InsertInOrder | food-sys/libevent-2.1.8-stable/event.c:3279-3307 | the search from the end puts the event behind the last one that is not after it |
| CommonTimeouts.InsertedFacts | food-sys/libevent-2.1.8-stable/event.c:3279-3307 | insertion keeps the order, loses nothing, and ties stay in insertion order |
| CommonTimeouts.InsertAllStable | food-sys/libevent-2.1.8-stable/event.c:3279-3307 | the list is the stable sort of everything added to it, in whatever order it came |
| CommonTimeouts.TimeoutList.InOrder | food-sys/libevent-2.1.8-stable/event.c:3279-3307 | earlier events of a list have earlier deadlines, in microseconds |
| CommonTimeouts.TimeoutList.Callback | food-sys/libevent-2.1.8-stable/event.c:1418-1439 | exactly the events whose deadline, without its packing, is at or before now in microseconds are made active, in order; the rest stay, and the timer is set to the first of them |
| Arc4.Generator.constructor | food-sys/libevent-2.1.8-stable/arc4random.c:96-105 | the state starts as the identity permutation |
| Arc4.Generator.AddRandom | food-sys/libevent-2.1.8-stable/arc4random.c:107-122 | 256 mixing rounds lead to the state MixedIn, which is a permutation again |
| Arc4.Generator.AddAll | food-sys/libevent-2.1.8-stable/arc4random.c:465-480 | all of the data is mixed in, 256 bytes farther on each time |
| Arc4.RoundReversible | food-sys/libevent-2.1.8-stable/arc4random.c:113-121 | a mixing round can be undone by who knows its byte |
| Arc4.RoundDetermined | food-sys/libevent-2.1.8-stable/arc4random.c:113-121 | the byte mixed in shows in the second index |
| Arc4.OtherByte | food-sys/libevent-2.1.8-stable/arc4random.c:113-121 | another byte makes another permutation at once |
| Arc4.EveryByteMatters | food-sys/libevent-2.1.8-stable/arc4random.c:107-122 | data that differ in one of the bytes used, whichever it is, lead to different states |
| Arc4.LastByteMatters | food-sys/libevent-2.1.8-stable/arc4random.c:465-480 | blocks behind the first one are mixed in as well |
| Arc4.Generator.GetByte | food-sys/libevent-2.1.8-stable/arc4random.c:425-437 | one turn keeps the state a permutation: the indices move, the two entries change places, and the byte is the entry their sum leads to |
| Arc4.Generator.GetWord | food-sys/libevent-2.1.8-stable/arc4random.c:439-450 | four turns, most significant byte first |
| Arc4.WordBytes | food-sys/libevent-2.1.8-stable/arc4random.c:439-450 | each of the four bytes comes out of the word at its place |
| Arc4.FirstWord | food-sys/libevent-2.1.8-stable/arc4random.c:439-450 | the first word of a generator nothing has been mixed into is 0x0205070D |
| Arc4.OncePlaced | food-sys/libevent-2.1.8-stable/arc4random.c:107-122 | every byte value is at exactly one place of the state |
| Arc4.TurnReversible | food-sys/libevent-2.1.8-stable/arc4random.c:425-437 | a turn can be undone: no two states run together |
| Arc4.LeastAcceptedExact | food-sys/libevent-2.1.8-stable/arc4random.c:531-541 | the 32-bit expression for min is 2^32 mod bound, and more than half of all draws are accepted |
| Arc4.Uniform | food-sys/libevent-2.1.8-stable/arc4random.c:522-555 | the first draw not below min decides, reduced modulo the bound |
| Arc4.Unbiased | food-sys/libevent-2.1.8-stable/arc4random.c:522-555 | every result below the bound has exactly floor(2^32 / bound) accepted draws |
| Orders.TakeOrder | food-sys/pkt_handlers.c:49-56 | exactly the listed dishes become NEW and are counted |
| Orders.Offer | food-sys/pkt_handlers.c:64-74 | exactly the dishes that are NEW for the customer and CAPABLE for the cook are assigned, in both menus and in the packet |
| Orders.Turn | food-sys/pkt_handlers.c:61-88 | one free cook's turn: it becomes busy exactly when it gets a dish |
| Orders.Pass | food-sys/pkt_handlers.c:57-90 | every dish goes to the first free cook who can make it, one packet for each such cook, up to the cook whose dishes bring the count to the number ordered |
| Orders.OneCook | food-sys/pkt_handlers.c:61-89 | a dish is assigned exactly when some free cook can make it, and to one cook only |
| Orders.Shortfall | food-sys/pkt_handlers.c:92-111 | dishes stay NEW exactly when fewer were assigned than wanted |
| Orders.StopsMet | food-sys/pkt_handlers.c:57-90 | the pass ends with the number ordered exactly when handing out cook by cook comes to that number at all |
| Orders.StopsWithAll | food-sys/pkt_handlers.c:84-88 | where no more dishes are wanted than were ordered, stopping early changes nothing |
| Orders.MessageExact | food-sys/pkt_handlers.c:92-111 | over the situation before the pass: the message goes out exactly when the number ordered is never met; it and a dish left NEW go together exactly when as many dishes are wanted as numbers were ordered, or the number is never met and some wanted dish cannot be made |
| Orders.EarlierDishUntold | food-sys/pkt_handlers.c:92-111 | a dish of an earlier order stays NEW and no message goes out |
| Orders.CustOrder | food-sys/pkt_handlers.c:38-122 | the whole handler: menus, states, packets, the customer each free cook visited is given, the message exactly when the number ordered is never met, which message and with which dishes, and exactly when it tells of a dish left NEW; nothing at all changes for who is no customer; without an earlier dish waiting every cook counts, and for orders without repeated dishes the message goes out exactly when some dish stays NEW |

## Left out

- Pinned, immutable, multicast and reference chains, file segments, callbacks and the n_add/n_del counters of evbuffers: the model has mutable, unpinned chains only.
- Sockets, readv/writev, sendfile, mmap, locking of evbuffers and bufferevents, and everything platform-specific.
- EvBufferRemove.RemoveBuffer: for sources outside LinksFollow what follows SplitFront is not modelled: evbuffer_add is then called on a target whose link is wrong, where it writes between data or stops at its own assertion, or the source stays with a wrong link.
- EvBufferReserve.CommitSpace: asks for the data and the accepted bytes to fit one size_t together, as they do in memory.
- EvBufferSingle.ReserveAndCommit: says nothing of the contents of the reserved space, which is the caller's to fill.
- EvBufferReserve.ReserveSpace: covers two vectors or more; EvBufferSingle.ReserveOne covers one.
- EvBufferSearch.SearchEol: positions are unbounded integers in it and in the other searches; Readln cuts them to the signed range.
- evbuffer_free_trailing_empty_chains frees before it cuts; the model lets the caller's write through the returned link do the cut.
- The thread pool's creation, pause, resume and shutdown; the queue's int length is unbounded in the interleaving model and below INT_MAX in the linked queue.
- ThreadPool.WaiterWoken: for runs with at most one caller in thpool_wait at any moment; WaitSafeExactly shows why.
- DnsNames.DnsnameToLabels: the duplicate of a name for the table always succeeds; on an error code the bytes written so far and the table are not specified, as no caller uses them; the offset is at most bufLen, and where the closing zero comes to stand behind bufLen the array must have that byte.
- DnsRuns.WriteAll: what stands between the names is given as bytes; the length of a name that is patched in behind it is one of them.
- DnsNames.NameParse: the output array on failure is not specified.
- Search domains, resolv.conf, hosts files, getaddrinfo, probes, timeouts, retransmission and the wire side of DNS requests; failing and recovering nameservers.
- EvdnsRequests.DnsBase.TransactionIdPick: the random draw that ends the loop is an arbitrary free id, and at most 65534 requests may be in flight, beyond which the loop of the source does not end.
- EvdnsRequests.DnsBase.SetMaxRequestsInflight: limits below 65535; the options of the library clip it to 65000.
- RateRuns.OwnBound: runs with tokens given back, for which there is no such bound; also RateRuns.GroupBound.
- The timers of rate limits themselves, and joining or leaving a group.
- Tagging: allocations succeed; strings, timevals and fixed-size records, which only combine the modelled parts.
- The min-heap and the event map of the event base, the dispatch loop, and event_deferred_cb_set_priority_, which can change the priority of a queued callback.
- CommonTimeouts: event_del and event_active are the removal from the list and the report in order; events are values there.
- Seeding and reseeding of the RC4 generator; Arc4.Uniform takes the draws as a list, since its loop ends only with probability one.
- Orders.TakeOrder: dish numbers of 32 and more, for which the source writes behind the menu.
- Orders.CustOrder: the same; the text of messages; sending packets.
- cook_update, which never resets a cook's assigned dishes, and the client programs.
