# Models of the event library and of the agent's own data structures

The repository is a proxy in front of Redis. It carries a copy of libevent 2.0.19 and a
few data structures of its own: a queue that many threads fill and one drains, grouped
memory, a log ring, a hash. This project models the parts of both whose correctness is
hardest to see, and proves what they are for.

## What is modelled

**The byte queue** (`Bytes`, `Pieces`, `Chains`, `Evbuffers`, `EvbufferRead`,
`EvbufferSearch`, `Lines`, `EvbufferRun`). A buffer is a linked list of partly filled
chains with a first and a last pointer, a cached link `last_with_datap`, a length and two
freeze flags. `Chain` and `Evbuffer` are classes with those fields, updated in place by
the same branches as the C code. Ghost fields list the chains and their data;
`Contents()`, their concatenation, is the flat byte string a user sees. `Valid()` says
that the list is well linked, that its length is the sum of the chains, and that
`last_with_datap` leads to the last chain with data, with data in every chain before it.
Every operation is proved to do to `Contents()` what it does to a flat byte string, and
whole runs over two buffers are proved equal to runs over two byte strings. Where the
code breaks the cache, the contract says exactly when: `LwdOk() <==> condition`.

**Descriptor interest** (`Interest`). One record per descriptor with counts of readers
and writers, and three ways to tell the kernel: a changelist that merges changes between
dispatches, an immediate `epoll_ctl`, and the write queue of `/dev/poll`. The kernel is a
map from descriptors to watched directions with the error answers of `epoll_ctl`.

**Timers** (`TimeoutLists`, `Timers`, `TimerRuns`). The lists of events with one common
duration, the timer that stands for each list in the heap, and the active queue. The heap
is a map from what is in it to its deadline. Whole runs are proved equal to runs over a
plain table of deadlines that knows of no heap, no lists and no timers.

**Bandwidth limits** (`TokenBucket`, `Bufferevents`, `RateRuns`). Buckets refilled by ticks
in 64-bit arithmetic, the reasons for which a direction is suspended, the refill timer,
and groups of bufferevents that share a bucket; and whole runs of both.

**DNS names** (`DnsNames`, `DnsEncode`, `DnsMessages`). `Spells` and `Reads` say what the
bytes at an offset spell, following compression pointers (sections 3.1 and 4.1.4 of
RFC 1035). The encoder and the parser are each proved against that.

**Tagged records** (`TagCodec`, `Tagging`) and **bufferevent pairs** (`Pair`) are written
on top of the byte queue, through its contracts.

**The agent's own code**: the queue of `event.cpp` (`Mpsc`) as a state machine whose steps
are single statements of the producers and of the consumer, with the activation of the
event that consumes; block groups (`Mem`); the log ring (`LogRing`); MurmurHash64A
(`Murmur`). **Random numbers** (`Arc4`): the generator's table, and the choice of a number
below a bound.

## Where the code does not do what it is meant to

- Adding to a buffer whose last chain is an empty one that `last_with_datap` has not
  reached leaves the cache behind; and where there are several such chains and the last of
  them is too small, some of the bytes go into it and an assertion of
  `evbuffer_chain_insert` fires. `Evbuffer.Add`, `AddReference`, `Prepend`, `AddBuffer`,
  `PrependBuffer`, `RemoveBuffer` and `ChainInsert` state exactly when. `EmptyAddLosesLwd`,
  `EmptyPrependLosesLwd` and `MoveAtReferenceLosesLwd` each lose the cache in a few calls
  from new buffers. The contents are still right, but operations that trust the cache no
  longer are: after the last of the three, moving one more byte makes an assertion of
  `evbuffer_remove_buffer` fire. Wherever the cache leads, that assertion fires exactly if
  it leads to the first chain and the bytes fill that chain (`Evbuffer.WalkChains`), which
  they never do with the cache right (`Evbuffer.WalkEnds`). `AddFires` reaches the
  assertion of `evbuffer_chain_insert`.
- Moving part of a buffer leaves such an empty chain exactly when the bytes moved end
  where a reference to the user's memory does (`Evbuffer.RemoveBuffer`).
  `EvbufferRun.Breaks` puts all these conditions together, `EvbufferRun.Asks` is the
  question a caller can ask first, and `EvbufferRun.Run` stops only where its answer is yes.
- The refill that avoids overflow is the plain one exactly when the bucket is not over
  its maximum, or the refill is so large that a subtraction wraps round to the same value
  (`TokenBucket.RefillIsNaive`). Nothing keeps a bucket at its maximum: a negative
  decrement, by which a user refills a bucket by hand, is added without a limit. From then
  on the maximum does not hold the bucket (`RefillOver`, `CreditPassesMaximum`), and a
  refill that passes 2^63 leaves it in debt without a stall (`CreditLosesTheStall`). An
  update keeps the stall invariant exactly when it is steady (`RefillSteady`,
  `Bev.UpdateBuckets`, `Bev.RefillCallback`, `Group.RefillCallback`), which without such
  credits it always is (`Bev.CappedSurvives`). A group whose minimum share is zero is
  resumed with an empty bucket exactly when a refill leaves just nothing in it
  (`Group.UpdateKeeps`; `ResumedWithNothing` is one).
- A comment promises that no more than 16384 bytes move at a time. More is reported
  exactly for a bufferevent with a limit of its own, when that limit, and its share of the
  group's if it is in one, allow more (`Bev.GetRlimMax`, `Group.GetRlimMax`);
  `MoreThanTheCap` is one.
- A DNS pointer leads back to where it was meant to exactly below offset 0x4000
  (`DnsEncode.PointerTarget`), so a name is written right unless a pointer in it would have
  to lead further (`DnsnameToLabels`); a name survives encoding exactly when it is empty
  or has no empty label (`DnsNames.UptoIsName`, `DnsMessages.WriteAll`). The last zero of a
  name is written without a test, and falls behind the limit exactly when the name,
  written whole, ends there (`DnsnameToLabels`, `LastZeroBehind`). The label at which a
  packet ends early is copied from outside the packet, and then the parser gives up: its
  outcome `Outside`. `DnsNames.OutsideIfRunsOut` says exactly for which packets, and
  `DnsNames.LabelOutside` is one.
- `request_parse` means to refuse queries that are not standard as not implemented, but
  masks the flags before it tests them: none is ever refused for that
  (`DnsMessages.NeverNotImplemented`, `OpcodeHandedOn`).
- The comments on tagged records put the most significant part first; the code writes
  the least significant nibble and the least significant seven bits first. The tag
  decoder looks for the last byte beyond the five bytes it has pulled up: its outcome
  `Outside` (`DecodeTagBytes`, `SixthByteOutside`). The length of a payload of 2^31 bytes or more comes back as a negative `int`
  (`Tagging.UnmarshalHeader`).
- When the unread bytes of the log ring go round its end and `fwrite` takes only some of
  those before the end, the length of the next write is negative, and bytes from outside
  the ring are written (`LogRing.Ring.Drain` says exactly when; `ShortWriteOutside` is one
  such write).

## Model

| member | source | states |
|---|---|---|
| Bytes.FlatReplaceTail | deps/libevent/buffer.c:282-311 | putting a chain in the place of trailing empty ones appends its bytes to the flat contents |
| Bytes.FlatDropPrefix | deps/libevent/buffer.c:950-1018 | dropping whole chains and then part of the next drops that many bytes of the flat contents |
| Bytes.FlatTakePrefix | deps/libevent/buffer.c:1034-1081 | whole chains and part of the next are a prefix of the flat contents |
| Pieces.InsertKeepsLast | deps/libevent/buffer.c:264-311 | an insertion keeps the last-with-data index exactly when no empty chain was replaced, or the new one is empty |
| Pieces.JoinKeepsLast | deps/libevent/buffer.c:778-806 | joining two lists keeps the second one's last-with-data exactly when no empty chain ends up before data |
| Pieces.InsertRunLast | deps/libevent/buffer.c:1133-1147 | a run of chains with data put in place of the trailing empty ones: contents appended, and its end is the last with data |
| Pieces.UncleanAppend | deps/libevent/buffer.c:1568-1580 | bytes put into the last of several empty chains are at the end of the contents, and the last-with-data index is wrong if and only if there are any |
| Pieces.Pulled | deps/libevent/buffer.c:1239-1277 | merging any number of chains into the first keeps the contents and says where the last chain with data then is |
| Chains.ChainCapacity | deps/libevent/buffer.c:154-170 | the chain holds what was asked for, and the block is the smallest size or less than twice what is needed |
| Chains.Chain.Append | deps/libevent/buffer.c:1568-1580 | writing behind the live bytes leaves the old bytes in front of the new ones |
| Chains.Chain.PutFront | deps/libevent/buffer.c:1646-1656 | writing into the misalignment leaves the new bytes in front of the old ones |
| Chains.Chain.Align | deps/libevent/buffer.c:1694-1706 | sliding the live bytes to the start of the memory changes none of them |
| Chains.Chain.Trim | deps/libevent/buffer.c:996-1004 | advancing the misalignment drops exactly the first bytes |
| Chains.NextSize | deps/libevent/buffer.c:1584-1591 | the size of a further chain covers the request and never shrinks; it is the request, or the last size, doubled up to 4096 |
| Chains.Chain.ShouldRealign | deps/libevent/buffer.c:1706-1714 | live bytes are slid to the start only if there is room for the new ones then, and they are few: at most 2048 and less than half of the memory |
| Evbuffers.Evbuffer.FindVictim | deps/libevent/buffer.c:264-280 | the link found is to the first empty chain from the cached one on, if there is one |
| Evbuffers.Evbuffer.AllEmpty | deps/libevent/buffer.c:240-248 | decides whether every chain from one on is empty |
| Evbuffers.Evbuffer.ChainInsert | deps/libevent/buffer.c:282-311 | the assertion fires, and nothing is changed, if and only if a chain to be replaced has data; otherwise contents grow by the chain's bytes, and the cache is right afterwards if and only if no empty chain was replaced past it or the new chain is empty |
| Evbuffers.Evbuffer.Add | deps/libevent/buffer.c:1533-1616 | contents followed by the bytes, or refusal when the end is frozen; when the assertion fires, and which bytes are then in; the cache is kept if and only if the bytes do not go behind an empty chain that it has not reached |
| Evbuffers.Evbuffer.AddToLast | deps/libevent/buffer.c:1560-1590 | the three ways to use the last chain (room, realignment, a further chain) all append the same bytes, except when the assertion fires |
| Evbuffers.Evbuffer.AddChain | deps/libevent/buffer.c:1592-1612 | bytes split between the rest of the last chain and a new one still come out in order, except when the assertion fires |
| Evbuffers.Evbuffer.LosesIs | deps/libevent/buffer.c:1592-1612 | for bytes that the last chain has no room for: when the cache is lost, and when the assertion fires, by what the last chain still takes and which chain would be replaced |
| Evbuffers.Evbuffer.AddReference | deps/libevent/buffer.c:2685-2729 | contents followed by the user's bytes; when the cache is kept, if and only if; what the chains then are |
| Evbuffers.Evbuffer.Prepend | deps/libevent/buffer.c:1619-1691 | the bytes come before the contents whatever the misalignment; the cache is kept exactly in the cases stated |
| Evbuffers.Evbuffer.PrependToFirst | deps/libevent/buffer.c:1633-1668 | the room before the first chain's data is filled from its end and the rest goes before it |
| Evbuffers.Evbuffer.PrependChain | deps/libevent/buffer.c:1670-1687 | a new first chain written at its end, with the cached link moved off the buffer's head pointer |
| Evbuffers.Evbuffer.Drain | deps/libevent/buffer.c:950-1018 | exactly the first bytes go, at most all of them, or nothing when the start is frozen; the whole invariant is kept |
| Evbuffers.Evbuffer.DrainSome | deps/libevent/buffer.c:981-1006 | a partial drain drops exactly that many bytes and never loses the chain with the last data |
| Evbuffers.Evbuffer.SkipChains | deps/libevent/buffer.c:983-995 | walking over emptied chains stops in the right chain at the right byte, with the cached link moved off those to be freed |
| Evbuffers.Evbuffer.Copyout | deps/libevent/buffer.c:1034-1081 | the first bytes of the contents, as many as there are, without changing the buffer |
| Evbuffers.Evbuffer.Remove | deps/libevent/buffer.c:1020-1032 | the bytes handed out followed by what is left are the old contents |
| Evbuffers.Evbuffer.CopyChains | deps/libevent/buffer.c:764-776 | taking over another buffer's list takes over its contents and its cache, also when the link was in the other buffer's head |
| Evbuffers.Evbuffer.AppendChains | deps/libevent/buffer.c:778-792 | joining the other buffer's list at the end appends its contents without copying a byte |
| Evbuffers.Evbuffer.PrependChains | deps/libevent/buffer.c:794-806 | joining it at the start puts its contents first |
| Evbuffers.Evbuffer.AddBuffer | deps/libevent/buffer.c:858-902 | all contents move in order and the source is empty; refusals change nothing; the cache is kept if and only if the tail was clean or the buffer empty |
| Evbuffers.Evbuffer.PrependBuffer | deps/libevent/buffer.c:904-948 | the same in front; here it is the source's tail that has to be clean |
| Evbuffers.Evbuffer.RemoveBuffer | deps/libevent/buffer.c:1083-1171 | a prefix moves to the end of the other buffer; the exact conditions for the assertion to fire, for the other buffer's cache to be left behind, and for its tail to be left with an empty chain, which is that the prefix ends with a reference |
| Evbuffers.Evbuffer.WalkEnds | deps/libevent/buffer.c:1119-1124 | with the cache right, the bytes to be moved never fill the first chain while the cache leads to it |
| Evbuffers.Evbuffer.WalkChains | deps/libevent/buffer.c:1118-1129 | the walk over the chains to be moved, wherever the cache leads: its assertion fires if and only if the cache leads to the first chain and the bytes fill it; otherwise the walk stops in the right chain with the cache moved off those passed |
| Evbuffers.Evbuffer.EndsThere | deps/libevent/buffer.c:1119-1150 | a prefix ends with a reference if and only if the chain where the walk stops begins there and the one before it is a reference |
| Evbuffers.Evbuffer.MoveChains | deps/libevent/buffer.c:1119-1147 | whole chains go over without copying; both sides still spell their bytes, with the rest to be copied at the start of the next chain |
| Evbuffers.Evbuffer.TakeRun | deps/libevent/buffer.c:1135-1147 | a run of chains with data goes behind the data of the other buffer, in the place of its empty chains, and the cache reaches the end |
| Evbuffers.Evbuffer.AdvanceLwd | deps/libevent/buffer.c:645-659 | walking forward ends at the last chain with data |
| Evbuffers.Evbuffer.Pullup | deps/libevent/buffer.c:1173-1283 | the contents do not change and the first chain alone holds the bytes asked for; it fails exactly when there are too few |
| Evbuffers.Evbuffer.PullInPlace | deps/libevent/buffer.c:1213-1223 | the same when the first chain has the room |
| Evbuffers.Evbuffer.PullIntoNew | deps/libevent/buffer.c:1224-1237 | the same through a new chain |
| Evbuffers.Evbuffer.Gather | deps/libevent/buffer.c:1239-1260 | the bytes collected are those of the contents, and the two flags say whether the last data, and the link to it, were passed |
| Evbuffers.Evbuffer.FixLwd | deps/libevent/buffer.c:1262-1277 | from those two flags the cached link is restored in every case |
| EvbufferRead.ExpandFast | deps/libevent/buffer.c:1830-1935 | without moving a byte there is room for the request within n chains from the first with room; in every branch, also when the empty chains are replaced |
| EvbufferRead.ScanRoom | deps/libevent/buffer.c:1852-1880 | the room counted is the sum of the room in consecutive chains, and if it falls short all chains were seen or n are used |
| EvbufferRead.InsertRoom | deps/libevent/buffer.c:1902-1934 | after the empty chains are freed the old room and the new chain together suffice, within two chains |
| EvbufferRead.SetupVecs | deps/libevent/buffer.c:2001-2035 | the vectors cover exactly the request, fill each chain but the last, and start at the first chain with room |
| EvbufferRead.Distribute | deps/libevent/buffer.c:2136-2160 | however many bytes came, they are the end of the contents, the chains with data come first, and the cache leads to the last of them |
| EvbufferRead.Read | deps/libevent/buffer.c:2058-2180 | contents followed by exactly the bytes received, or unchanged on an error or a frozen end; never more bytes than the caller, the socket and 4096 allow |
| EvbufferRead.ToRead | deps/libevent/buffer.c:2037-2089 | the largest number that the caller's limit, what the socket has, and 4096 allow |
| EvbufferRun.Do | deps/libevent/buffer.c:858-1691 | each of ten operations gives on the chains what it gives on flat byte strings, unless an assertion fires, and leaves two buffers fit for every further one if and only if it does not break one |
| EvbufferRun.Run | deps/libevent/buffer.c:858-1691 | any sequence of operations on two buffers, references and empty pieces included and moves in both directions, equals its flat version in every answer and in the final contents; it stops only before an operation that would break a buffer |
| EvbufferRun.Asks | deps/libevent/buffer.c:282-1691 | decides from the two buffers alone whether an operation would break one |
| EvbufferRun.FlatRunMore | deps/libevent/buffer.c:858-1691 | a flat run and one more operation |
| EvbufferRun.EmptyAddLosesLwd | deps/libevent/buffer.c:1547-1568 | three calls after which the cache does not lead to the last data although the contents are right |
| EvbufferRun.MoveAtReferenceLosesLwd | deps/libevent/buffer.c:1119-1163 | the same failure after moving one byte that ends with a reference; the walk over one more byte then makes an assertion fire |
| EvbufferRun.AddFires | deps/libevent/buffer.c:1592-1612 | after two failed reads behind a reference, bytes of which the last chain holds all but one: the assertion fires with those in |
| EvbufferRun.EmptyPrependLosesLwd | deps/libevent/buffer.c:1670-1687 | the same failure after an empty insert in front of a reference |
| EvbufferRun.ReadRun | deps/libevent/buffer.c:2058-2180 | any sequence of reads, removals, drains and pullups delivers the bytes received in order, each once |
| EvbufferSearch.FindEolChar | deps/libevent/buffer.c:1317-1342 | the scan in chunks of 128 bytes finds the very byte that a scan byte by byte finds |
| EvbufferSearch.FindFrom | deps/libevent/buffer.c:1295-1364 | the first CR, LF or given byte at or after a position of the flat contents, across chains, or that there is none |
| EvbufferSearch.PtrSet | deps/libevent/buffer.c:2408-2447 | a position moves exactly if the target lies inside the contents, and then names the chain and offset of that byte |
| EvbufferSearch.PtrEqual | deps/libevent/buffer.c:2454-2486 | comparing chain by chain answers whether the flat contents have those bytes there |
| EvbufferSearch.CompareStep | deps/libevent/buffer.c:2468-2482 | a match so far goes on if and only if the next stretch agrees, and no later stretch can repair a difference |
| EvbufferSearch.SearchRange | deps/libevent/buffer.c:2494-2557 | the first occurrence at or after the start that ends by the end, or that no such occurrence exists |
| EvbufferSearch.Span | deps/libevent/buffer.c:1366-1403 | the length of the run of CR and LF bytes, across chains |
| EvbufferSearch.SearchCrLf | deps/libevent/buffer.c:1439-1466 | the first LF or CRLF, whichever way they alternate with lone CRs |
| EvbufferSearch.SearchEol | deps/libevent/buffer.c:1415-1488 | for each of the four styles the position and length of the first line end of the flat contents |
| EvbufferSearch.Readln | deps/libevent/buffer.c:1490-1527 | the text before the first line end, with the line end dropped too, or nothing changed |
| EvbufferSearch.ReadLines | deps/libevent/buffer.c:1490-1527 | reading until there is no line yields all lines of the flat contents and leaves the remainder |
| Lines.SplitJoins | deps/libevent/buffer.c:1490-1527 | lines with their line ends, and the remainder, make up the original text |
| Lines.SplitIntoLines | deps/libevent/buffer.c:1490-1527 | no line has a line end that starts inside it, and the remainder has none |
| Lines.FirstLine | deps/libevent/buffer.c:1415-1488 | cutting after the first line end keeps it the first line end of what was cut off |
| Lines.EolLength | deps/libevent/buffer.c:1415-1488 | a line end of style any is the whole run of CR and LF bytes; in the others it is LF or CR LF |
| Interest.Readers | deps/libevent/evmap.c:288-300 | the count is positive if and only if some registered event waits to read |
| Interest.TooManyIs | deps/libevent/evmap.c:288-306 | an event is refused exactly if there are 65535 already for a direction it waits for |
| Interest.AddTo | deps/libevent/evmap.c:646-674 | recording an addition changes what the kernel will watch by exactly those directions, whatever was recorded before |
| Interest.DelFrom | deps/libevent/evmap.c:677-726 | recording a deletion takes away exactly those directions, also when it cancels an addition |
| Interest.ConstructedIndexed | deps/libevent/evmap.c:615-644 | a new change leaves each descriptor with at most one, and no descriptor's pending interest changes |
| Interest.CountsOnly | deps/libevent/evmap.c:318-326 | counts and event lists of a record have no part in the changelist |
| Interest.OneLess | deps/libevent/evmap.c:347-371 | after an event is taken off, the counts are those of the events left |
| Interest.WithoutIs | deps/libevent/evmap.c:384 | of the events listed, exactly one occurrence of the event goes, and the others keep their order |
| Interest.Base.GetOrConstruct | deps/libevent/evmap.c:589-644 | finds the one change of a descriptor or makes it, and pending interest stays as it was |
| Interest.Base.ChangelistAddDel | deps/libevent/evmap.c:646-726 | the pending interest of that descriptor changes as asked, and no other |
| Interest.Base.ApplyOne | deps/libevent/epoll.c:173-330 | from any kernel state, through the EEXIST and ENOENT retries, the descriptor ends up watched as the change says |
| Interest.Base.EpollAddDel | deps/libevent/epoll.c:351-383 | an immediate call changes the kernel as the changelist would later |
| Interest.Base.Enqueue | deps/libevent/devpoll.c:81-115 | queueing, with a flush when full, loses and reorders no record |
| Interest.Base.DevpollAddDel | deps/libevent/devpoll.c:224-289 | removal followed by what remains leaves the right directions, although the driver only adds |
| Interest.Base.IoAdd | deps/libevent/evmap.c:262-332 | the event is registered, or refused at 65535 of a kind; pending interest is then what all registered events want |
| Interest.Base.IoDel | deps/libevent/evmap.c:335-387 | that event and no other is taken off, the others keep their order, and the answer says whether the interest changed |
| Interest.Base.ApplyChanges | deps/libevent/epoll.c:332-349 | every descriptor is then watched as it was pending, because each has one change at most |
| Interest.Base.RemoveAll | deps/libevent/evmap.c:526-578 | the changelist is empty and no descriptor points into it |
| Interest.Base.Dispatch | deps/libevent/epoll.c:332-349 | before it waits, the kernel watches exactly what the registered events want |
| Interest.StandingIs | deps/libevent/evmap.c:262-387 | after any run an event is listed as often as it was registered and not yet taken off |
| Interest.Operated | deps/libevent/evmap.c:262-387 | any run of additions, deletions and dispatches, on any of the three backends, ends with exactly the wanted interest, and with each event as often as it still stands |
| Interest.SameInterest | deps/libevent/devpoll.c:96-289 | the three backends agree after every run, and a direction is watched if and only if some registered event waits for it |
| TimeoutLists.InsertInOrder | deps/libevent/event.c:2530-2557 | scanning from the end finds the place behind equal deadlines and before later ones |
| TimeoutLists.Removed | deps/libevent/event.c:2514-2521 | taking an event out keeps the order, takes out no other, and the first deadline only grows |
| TimeoutLists.WithoutAt | deps/libevent/event.c:2514-2521 | it goes from where it stands |
| TimeoutLists.InsertedSorted | deps/libevent/event.c:2530-2557 | the list stays sorted with each event once |
| Timers.Base.InitCommonTimeout | deps/libevent/event.c:1177-1248 | the one list for a duration: found if there is one, new if there is none yet, and refused exactly when 256 others are in use |
| Timers.Normal | deps/libevent/event.c:1188-1197 | a time span with more than a second of microseconds is the same span with less |
| Timers.Base.Schedule | deps/libevent/event.c:1140-1147 | setting a list's timer to its first deadline restores the watch over that list |
| Timers.Base.QueueInsert | deps/libevent/event.c:2560-2600 | wherever an event is put, every list with events is still watched by a timer no later than its head |
| Timers.Base.QueueRemove | deps/libevent/event.c:2490-2526 | taking an event out of its place keeps the watch, also when it was the head |
| Timers.Base.EventAdd | deps/libevent/event.c:2014-2162 | an event waits once, with the new deadline; a pending timeout of it is withdrawn, another activation is not; no other event is touched |
| Timers.Base.EventDel | deps/libevent/event.c:2184-2255 | the event is nowhere, every other one as before |
| Timers.Base.Fire | deps/libevent/event.c:2276-2315 | an event whose time has come leaves its place and is active, once |
| Timers.Base.TimeoutProcess | deps/libevent/event.c:2463-2487 | nothing due stays in the heap; only what was due fired |
| Timers.Base.ListCallback | deps/libevent/event.c:1152-1173 | nothing due stays in the list, nothing elsewhere is fired, and its timer is set for the next or the list is empty |
| Timers.Base.RunDue | deps/libevent/event.c:1152-2487 | afterwards every event with a deadline at or before now is active and none still waits, in the heap or in any list; the others wait as before |
| Timers.Base.TimeoutCorrect | deps/libevent/event.c:2410-2460 | when the clock goes back every deadline goes back as far, so the waiting time left is the same, and order and watch are kept |
| Timers.CorrectedIs | deps/libevent/event.c:2410-2460 | the clock and the times of what waits go back alike, and no other time does |
| Timers.OffAt | deps/libevent/event.c:2491-2512 | taking an event off the active queue leaves the others in their order |
| Timers.Base.RunPersistent | deps/libevent/event.c:1252-1298 | an active persistent event leaves the active queue and waits again: one interval after the time it was scheduled for if it timed out, but from now if it fired for another reason or that time has passed; never before now |
| Timers.NoDrift | deps/libevent/event.c:1257-1294 | runs that are late by no more than an interval, however late, leave the deadline at the start plus a whole number of intervals |
| Timers.NotYet | deps/libevent/event.c:1257-1294 | looks at the clock before the deadline change nothing |
| Timers.LateRestarts | deps/libevent/event.c:1285-1292 | a run late by more than an interval starts a new series at its own time, whatever came before |
| Timers.PersistRun | deps/libevent/event.c:1152-2487 | over any sequence of times at which the loop runs, with any other events in the heap and in lists, the deadline of a persistent event is the one of that schedule |
| Timers.HeapGone | deps/libevent/event.c:2463-2487 | what a look at the heap has fired is exactly what waited there and was due |
| Timers.ListGone | deps/libevent/event.c:1152-1173 | what the callback of a list has fired is exactly what waited there and was due |
| TimerRuns.TimerRun | deps/libevent/event.c:1152-2487 | any run of time spans set up, events added, activated and deleted, a clock that goes back, looks at the heap, callbacks of lists and of events one by one in any order, and whole passes, leaves exactly the events waiting and active that a table of deadlines says: none early, none lost |
| TimerRuns.Waits | deps/libevent/event.c:1152-2487 | in the table, an event stops waiting if and only if it is deleted, has run once and for all, or is found due where it waits; and it becomes active if and only if it is found due or activated |
| TimerRuns.Ceases | deps/libevent/event.c:1305-2242 | and it ceases to be active if and only if it runs, is deleted, or is added again after its deadline made it active |
| TimerRuns.Added | deps/libevent/event.c:1178-2150 | an event added waits where and until when was asked; a time span is there once asked for, unless there were 256 |
| TimerRuns.WaitsAgain | deps/libevent/event.c:1253-1294 | a persistent event waits an interval from its deadline if that is not over, or else, or if it ran for another reason, not before now |
| TimerRuns.CaughtUp | deps/libevent/event.c:1152-2487 | at any time in such a run: once nothing due is in the heap and no list timer is active, nothing due waits anywhere |
| TokenBucket.RefillIsNaive | deps/libevent/bufferevent_ratelim.c:72-110 | the refill in wrapping 64-bit arithmetic is min(maximum, limit + ticks * rate) if and only if the condition given; always for a bucket within its maximum, negative limits included |
| TokenBucket.RefillOver | deps/libevent/bufferevent_ratelim.c:72-110 | over its maximum a bucket gets what the rate gives, until the sum does not fit in 64 bits, and what it then gets |
| TokenBucket.CreditPassesMaximum | deps/libevent/bufferevent_ratelim.c:72-954 | a credit of 50 passes a maximum of 100, and the bucket goes on growing; one tick more than fits leaves a debt of 2^63 |
| TokenBucket.RefillSteady | deps/libevent/bufferevent_ratelim.c:72-110 | bytes to move stay bytes to move if and only if the refill is steady; a debt only shrinks, and no refill gives more than the rate allows |
| TokenBucket.UpdateTwice | deps/libevent/bufferevent_ratelim.c:72-110 | updating at one tick and then at another equals updating at the other, across a wrap of the tick counter, for buckets over their maximum too as long as they fit in 64 bits |
| TokenBucket.UpdatedOk | deps/libevent/bufferevent_ratelim.c:72-110 | an update leaves a 64-bit number, and for a bucket within its maximum it never lowers a limit nor passes the maximum |
| TokenBucket.InitializedOk | deps/libevent/bufferevent_ratelim.c:48-69 | a new bucket holds one tick's rate; a reconfigured one keeps each limit that is within the maximum and is cut to it otherwise |
| TokenBucket.WindowBound | deps/libevent/bufferevent_ratelim.c:48-954 | over any stretch of a run that respects the limit, bytes moved are at most what the bucket held, which is at most the burst if no credit had filled it over, plus rate times ticks, plus the credits |
| TokenBucket.BetweenTicks | deps/libevent/bufferevent_ratelim.c:297-348 | between two ticks a limit is what it was, less what was moved, with what was credited |
| TokenBucket.Tallies | deps/libevent/bufferevent_ratelim.c:48-954 | what a run moves, waits and is credited is the sum of what its parts do |
| TokenBucket.DebtEnds | deps/libevent/bufferevent_ratelim.c:395-441 | debt divided by rate, and one more refill, is enough to be positive again |
| Bufferevents.Suspended | deps/libevent/bufferevent.c:65-111 | suspending for a reason keeps: armed exactly when enabled and not suspended |
| Bufferevents.Unsuspended | deps/libevent/bufferevent.c:65-111 | so does lifting one reason of several |
| Bufferevents.Enabled | deps/libevent/bufferevent.c:406-427 | so does enabling |
| Bufferevents.Disabled | deps/libevent/bufferevent.c:497-510 | so does disabling |
| Bufferevents.Bev.Enable | deps/libevent/bufferevent.c:406-510 | enabling and disabling touch no reason for suspension, and no other direction |
| Bufferevents.Bev.Watermark | deps/libevent/bufferevent.c:116-562 | when reading is suspended for the watermark afterwards, in the callback and when the mark is set |
| Bufferevents.Bev.DecrementBuckets | deps/libevent/bufferevent_ratelim.c:274-348 | stalled for bandwidth exactly when the bucket is used up, and then with a refill pending; for negative counts too |
| Bufferevents.Bev.DecrementLimit | deps/libevent/bufferevent_ratelim.c:900-954 | the same for any charge or credit by the user, where only a change of sign stalls or resumes |
| Bufferevents.Bev.UpdateKeeps | deps/libevent/bufferevent_ratelim.c:112-123 | an update leaves no empty bucket without a stall if and only if it survives; it always does within the maximum |
| Bufferevents.Bev.UpdateBuckets | deps/libevent/bufferevent_ratelim.c:112-123 | the invariant holds after an update if and only if it survives |
| Bufferevents.Bev.GetRlimMax | deps/libevent/bufferevent_ratelim.c:199-260 | in no group: own limit or 16384, never negative; more than 16384 if and only if a limit of its own allows more |
| Bufferevents.Bev.Transfer | deps/libevent/bufferevent_sock.c:154-179 | what is moved is the least of wish and allowance, or nothing in a suspended direction, and the bucket holds that much less after its update |
| Bufferevents.MoreThanTheCap | deps/libevent/bufferevent_ratelim.c:181-260 | a limit of 20000 bytes a tick reports 20000 |
| Bufferevents.CreditLosesTheStall | deps/libevent/bufferevent_ratelim.c:72-954 | the largest credit, and a tick: a direction goes on with its bucket 2^63 in debt |
| Bufferevents.Bev.RefillCallback | deps/libevent/bufferevent_ratelim.c:395-441 | the timer is pending again exactly when a direction is still stalled; the invariant holds if and only if the update survives |
| Bufferevents.Bev.SetRateLimit | deps/libevent/bufferevent_ratelim.c:558-635 | setting, changing or dropping a limit leaves no stall without a refill, and no stall without a limit |
| Bufferevents.StallEnds | deps/libevent/bufferevent_ratelim.c:395-441 | refill callbacks resume both directions within debt divided by rate, and one more, whatever credits there were as long as the limits fit in 64 bits meanwhile |
| Bufferevents.Group.SuspendAll | deps/libevent/bufferevent_ratelim.c:351-391 | every member whose lock is free is held back; busy ones are untouched |
| Bufferevents.Group.UnsuspendAll | deps/libevent/bufferevent_ratelim.c:444-522 | from a random start each member is visited once; work is left over if and only if some member was busy |
| Bufferevents.Group.ShareIs | deps/libevent/bufferevent_ratelim.c:240-252 | the share is the largest number that, told to every member, does not pass the group's limit, or the minimum share |
| Bufferevents.SumSplits | deps/libevent/bufferevent_ratelim.c:199-260 | what members are told together is the sum of what any two parts of them are told |
| Bufferevents.ReportsFit | deps/libevent/bufferevent_ratelim.c:199-260 | numbers that members may each be told are together at most the group's limit, or one minimum share a member |
| Bufferevents.Group.GetRlimMax | deps/libevent/bufferevent_ratelim.c:199-260 | the largest number that own limit and group allow, never negative; zero for every member of a stopped group, which is then held back itself; exactly when it is more than 16384 |
| Bufferevents.Group.Ask | deps/libevent/bufferevent_ratelim.c:199-260 | the same, after the member's own bucket is brought up to date |
| Bufferevents.Group.Decrement | deps/libevent/bufferevent_ratelim.c:297-348 | the group is stopped exactly when its limit is used up, for negative counts too |
| Bufferevents.Group.DecrementLimit | deps/libevent/bufferevent_ratelim.c:956-994 | the same for any charge or credit by the user |
| Bufferevents.Group.UpdateKeeps | deps/libevent/bufferevent_ratelim.c:527-555 | a refill leaves no empty bucket of a group that goes on if and only if it survives, with the minimum share taken into account |
| Bufferevents.ResumedWithNothing | deps/libevent/bufferevent_ratelim.c:527-555 | a debt of ten, a rate of ten and no minimum share: one tick resumes reading with nothing to read |
| Bufferevents.Group.MaybeResume | deps/libevent/bufferevent_ratelim.c:537-552 | a stopped direction resumes from min_share on, leftover work is done, and exactly when no direction goes on with an empty bucket |
| Bufferevents.Group.RefillCallback | deps/libevent/bufferevent_ratelim.c:527-555 | after a refill no member is held back by a group that is not stopped, unless it was busy; the invariant holds if and only if the refill survives; without credits it does, and the debt is still below one share |
| Bufferevents.Group.Transfer | deps/libevent/bufferevent_ratelim.c:199-348 | what is moved is no more than wished, than the own limit and than what a member of the group may take, and is counted once on both buckets; the group's debt stays below one share |
| Bufferevents.Group.SetMinShare | deps/libevent/bufferevent_ratelim.c:699-718 | the share in force is at most the one asked for and both rates, and is one of the three |
| Bufferevents.Group.SetCfg | deps/libevent/bufferevent_ratelim.c:668-697 | reconfiguring keeps the group's invariant and cuts limits to the new maximum |
| Bufferevents.Group.Add | deps/libevent/bufferevent_ratelim.c:731-776 | a new member is held back exactly if the group is stopped |
| Bufferevents.Group.Remove | deps/libevent/bufferevent_ratelim.c:778-806 | a member that leaves is no longer held back, and the others stay in order |
| Bufferevents.Group.Join | deps/libevent/bufferevent_ratelim.c:731-776 | from no group, this one or another one: it is last in this one, gone from the other, and both groups keep their invariant |
| RateRuns.GroupRun | deps/libevent/bufferevent_ratelim.c:199-994 | any run of a new group, as members join, leave, move bytes and act on their own account, ticks pass, and the user charges, credits and reconfigures: it stops only where an update would lose a stall or a number would not fit, the buckets of the group and of every member are those of a ledger kept apart, and no book gives more than was given; without charges, credits and reconfigurations it never stops, every bucket stays within its maximum, and the debt of the group below one share |
| RateRuns.PostedSound | deps/libevent/bufferevent_ratelim.c:199-954 | whatever is posted in the ledger of a group, in each direction of the group what is left and what was moved are together no more than start, rate times ticks, and credits; and of each member likewise |
| RateRuns.PostedIs | deps/libevent/bufferevent_ratelim.c:297-806 | what each operation is in that ledger: a transfer counts once for the group and once for the member |
| RateRuns.SoundHolds | deps/libevent/bufferevent_ratelim.c:199-555 | in a group with a small debt and no bucket over its maximum, no transfer and no refill loses a stall |
| RateRuns.BevRun | deps/libevent/bufferevent_ratelim.c:72-954 | any run of a new bufferevent, as it is switched, limited, credited and refilled and moves bytes: every stall is kept up to an operation that harms it, the buckets are those of the books, and the bytes moved under each limit are at most what it started with, the rate times the ticks, and the credits |
| RateRuns.BookedBalanced | deps/libevent/bufferevent_ratelim.c:72-954 | whatever is booked, what is left and what was moved are together no more than was given |
| RateRuns.BookedIs | deps/libevent/bufferevent_ratelim.c:72-954 | a new limit opens new books; under the same limit, what is booked is the bytes moved, the credits, and the ticks by which the time of the last update has gone on |
| RateRuns.MovedIs | deps/libevent/bufferevent_ratelim.c:297-348 | since a limit was set, the bytes booked are all that were moved in that direction |
| RateRuns.Act | deps/libevent/bufferevent_ratelim.c:72-954 | each operation on one bufferevent keeps its stalls and its books, and leaves its suspension by a group alone |
| DnsNames.NameParse | deps/libevent/evdns.c:935-989 | the loop with its jumps, loop guard and room checks computes the recursive parse |
| DnsNames.ParseReads | deps/libevent/evdns.c:935-989 | if the bytes spell a name, the parser returns it, or fails exactly for want of room, and goes on after the first pointer or zero |
| DnsNames.ParseOnlyReads | deps/libevent/evdns.c:935-989 | a name returned is spelled by the bytes, over no more pointers than the guard allows |
| DnsNames.OutsideIfRunsOut | deps/libevent/evdns.c:955-981 | the parser copies bytes from outside the packet if and only if the labels and pointers it follows, with room for them, lead to a label that runs past the end |
| DnsNames.LabelOutside | deps/libevent/evdns.c:955-981 | a packet of three bytes with a label of five |
| DnsNames.SpellsReads | deps/libevent/evdns.c:935-989 | with every pointer backwards the loop guard never trips |
| DnsNames.UptoIsName | deps/libevent/evdns.c:1577-1643 | encoding keeps a name if and only if it is empty or has no empty label |
| DnsNames.UptoIs | deps/libevent/evdns.c:1577-1643 | of any other name the longest part is kept that ends with a label and has no empty one |
| DnsNames.KnownName | deps/libevent/evdns.c:935-989 | seven bytes with a pointer, and the name of two labels that they spell |
| DnsEncode.Table.GetPos | deps/libevent/evdns.c:1535-1548 | the first entry with that suffix, or that there is none |
| DnsEncode.Table.AddLabel | deps/libevent/evdns.c:1550-1564 | a suffix is remembered unless there are 128 |
| DnsEncode.PointerTarget | deps/libevent/evdns.c:1599-1606 | the two bytes of a pointer lead to its offset if and only if that is below 0x4000 |
| DnsEncode.EntryStep | deps/libevent/evdns.c:1608-1634 | while a name is being written each remembered suffix leads to where the rest of it will be |
| DnsEncode.EmptyStep | deps/libevent/evdns.c:1608-1634 | an empty label ends what is spelled so far, and entries stay right |
| DnsEncode.Done | deps/libevent/evdns.c:1577-1643 | once the rest is spelled, all remembered suffixes and the name are, with fewer pointers than bytes before them |
| DnsEncode.LastStep | deps/libevent/evdns.c:1622-1642 | the last label and its zero finish the name and the table |
| DnsEncode.DnsnameToLabels | deps/libevent/evdns.c:1577-1643 | for any limit and table: where what is written ends, to the byte; failure only for too long labels, names or too little room, and success whenever a whole encoding fits; the bytes spell the name and entries only point backwards, unless a pointer would have to lead to 0x4000 or beyond |
| DnsEncode.LastZeroBehind | deps/libevent/evdns.c:1622-1642 | a name of one letter and a limit of two bytes: the zero is the third |
| DnsEncode.KnownBefore | deps/libevent/evdns.c:1535-1606 | the pointer in a name leads to before the end of what is written, so below 0x4000 in a message that short |
| DnsEncode.PosOfShorter | deps/libevent/evdns.c:1535-1564 | suffixes remembered while a name is written have no part in what its own pointer leads to |
| DnsMessages.SpellsParses | deps/libevent/evdns.c:935-989 | spelled bytes parse to that name with any output room that holds it |
| DnsMessages.AllParse | deps/libevent/evdns.c:935-1643 | each of several names in one message parses back from its own start, exactly if it is empty or has no empty label |
| DnsMessages.WriteAll | deps/libevent/evdns.c:1507-1643 | a list of names encoded in turn with one shared table: each that starts up to 0x4000 parses back to itself with the cursor at the end of its encoding, exactly if it is empty or has no empty label, and all fit if whole encodings would |
| DnsMessages.RequestParse | deps/libevent/evdns.c:1193-1265 | what reaches the server's callback: id, the bits kept, and the questions, or failure for short packets, answers and bad names, or refusal as not implemented |
| DnsMessages.AllAsked | deps/libevent/evdns.c:1193-1265 | any number of questions in one message, with whatever compression between their names, are read back one by one |
| DnsMessages.Preserved | deps/libevent/evdns.c:1218 | of the flags, the two bits for recursion desired and checking disabled are kept, and no other |
| DnsMessages.NeverNotImplemented | deps/libevent/evdns.c:1193-1265 | whatever kind of query a packet is, it is handed on if and only if it is whole, not an answer, and its questions can be read |
| DnsMessages.OpcodeHandedOn | deps/libevent/evdns.c:1193-1265 | a query with all four bits of its kind set is handed on as a standard one |
| DnsMessages.QueryParses | deps/libevent/evdns.c:1193-1682 | a header, an encoded name, a type and a class parse back as one question |
| DnsMessages.RequestDataBuild | deps/libevent/evdns.c:1657-1682 | a built query parses back to the same id, name, type and class, whatever the limit, and is built whenever it fits |
| TagCodec.EncodeIntInternal | deps/libevent/event_tagging.c:115-136 | what is written encodes the number, in at most 5 bytes (9 for 64 bits) and in no more nibbles than it has |
| TagCodec.DecodeIntInternal | deps/libevent/event_tagging.c:304-344 | fails exactly on an empty, too long or cut off encoding, and otherwise returns the number encoded, which fits the width |
| TagCodec.IntUnique | deps/libevent/event_tagging.c:115-344 | bytes encode one number with one length |
| TagCodec.KnownInt | deps/libevent/event_tagging.c:115-136 | two bytes, and the number of three nibbles that they encode |
| TagCodec.DigitsLeast | deps/libevent/event_tagging.c:115-136 | no fewer nibbles would hold the number |
| TagCodec.IntWithAnyTail | deps/libevent/event_tagging.c:346-378 | what follows an encoding does not matter |
| TagCodec.EncodeTagBytes | deps/libevent/event_tagging.c:171-192 | a tag in groups of seven bits, in at most 5 bytes |
| TagCodec.DecodeTagBytes | deps/libevent/event_tagging.c:194-231 | the tag that the bytes encode, modulo 32 bits, with its length; or that no byte ends it |
| TagCodec.SixthByteOutside | deps/libevent/event_tagging.c:194-231 | five bytes with the high bit and a sixth: the decoder goes on past the five |
| TagCodec.TagUnique | deps/libevent/event_tagging.c:171-231 | bytes encode one tag with one length |
| TagCodec.KnownTag | deps/libevent/event_tagging.c:171-192 | two bytes, and the tag that they encode |
| TagCodec.TagWithAnyTail | deps/libevent/event_tagging.c:194-231 | what follows an encoding does not matter |
| Tagging.EncodeTag | deps/libevent/event_tagging.c:171-192 | the buffer grows by an encoding of the tag |
| Tagging.EncodeInt | deps/libevent/event_tagging.c:138-164 | the buffer grows by an encoding of the number |
| Tagging.DecodeTag | deps/libevent/event_tagging.c:194-231 | any encoding at the front of the buffer decodes to its tag, and exactly it is drained, if asked |
| Tagging.DecodeIntAt | deps/libevent/event_tagging.c:346-378 | any encoding at an offset decodes to its number and nothing is drained |
| Tagging.Marshal | deps/libevent/event_tagging.c:245-252 | the buffer grows by exactly one record of that tag and payload |
| Tagging.KnownRecord | deps/libevent/event_tagging.c:245-252 | five bytes, and the record that they encode |
| Tagging.UnmarshalHeader | deps/libevent/event_tagging.c:422-436 | any record at the front: its tag and length, as an `int` that a length from 2^31 on makes negative, and the buffer stands at the payload |
| Tagging.Unmarshal | deps/libevent/event_tagging.c:451-466 | any record with a payload below 2^31 bytes at the front: its tag and length, the payload moves to the end of the other buffer, and exactly the record is consumed |
| Tagging.MarshalInt | deps/libevent/event_tagging.c:265-286 | a record whose payload is one encoded integer |
| Tagging.UnmarshalInt | deps/libevent/event_tagging.c:469-519 | such a record gives back the number and is consumed whole, if it has the tag needed |
| Tagging.MarshalTimeval | deps/libevent/event_tagging.c:295-302 | a record with seconds and microseconds, of at most ten bytes of payload |
| Tagging.UnmarshalTimeval | deps/libevent/event_tagging.c:564-590 | both come back, and the record is consumed, whatever the size of the buffer |
| Tagging.StreamGrows | deps/libevent/event_tagging.c:245-252 | a stream of records with one more record behind it |
| Tagging.StreamRoundTrip | deps/libevent/event_tagging.c:245-466 | any list of records with payloads below 2^31 bytes, written and read back, is the same list, however long the stream |
| Pair.Channel.Transfer | deps/libevent/bufferevent_pair.c:150-197 | how many bytes go over for any watermark, and that they go in order, references included; both buffers stay valid if and only if the transfer does not go behind an empty chain left at the end of the input |
| Pair.Amount | deps/libevent/bufferevent_pair.c:160-174 | a transfer fills the input up to its watermark and no further; past the watermark it moves nothing, or everything if the watermark is ignored |
| Pair.Channel.Write | deps/libevent/bufferevent_pair.c:209-227 | bytes written equal bytes consumed, then the input, then the output, in order, if and only if the output can take the bytes |
| Pair.Channel.Lend | deps/libevent/buffer.c:2685-2729 | the same for bytes that stay in the user's memory |
| Pair.Channel.Read | deps/libevent/bufferevent_pair.c:150-197 | reading keeps that equation |
| Pair.Ends.Talk | deps/libevent/bufferevent_pair.c:199-227 | bytes move exactly if the sender writes, the receiver reads and is not suspended, and there are any: as many as the watermark lets through, all if there is none; both buffers stay valid if and only if the move does not go behind an empty chain |
| Pair.Ends.Write | deps/libevent/bufferevent_pair.c:209-227 | writing or lending at one end: the bytes wait there unless the other end reads and is not suspended, and then go over in order; the other direction is untouched; nothing breaks where the input has no empty chain at its end |
| Pair.Ends.Enable | deps/libevent/bufferevent_pair.c:229-255 | enabling either end lets waiting bytes through to an end that reads, and to no other; no input is pushed past its watermark; exactly when a direction stays valid |
| Pair.Ends.Flush | deps/libevent/bufferevent_pair.c:281-307 | a flush moves what it may in the directions asked for, whatever the ends are set to; exactly when a direction stays valid |
| Mpsc.InitInv | event.cpp:101-111 | a new queue is one placeholder |
| Mpsc.ProduceInv | event.cpp:65-87 | each single statement of a producer keeps the invariant, whatever the other threads are at |
| Mpsc.ConsumeInv | event.cpp:89-99 | so does each single statement of the consumer, which holds no lock |
| Mpsc.StepInv | event.cpp:65-298 | every step of every thread keeps the invariant |
| Mpsc.RunInv | event.cpp:65-298 | so does every interleaving |
| Mpsc.MemorySafe | event.cpp:89-99 | no step touches freed memory, the consumer reads only published nodes, and what it frees no one else will touch |
| Mpsc.TouchesAll | event.cpp:65-99 | what a step is said to touch is all that it depends on in the memory of the nodes, and all that it changes there |
| Mpsc.PrefixOrder | event.cpp:65-99 | items consumed are a prefix of those published, and these of those in the order of the lock |
| Mpsc.LockedIs | event.cpp:65-87 | for every interleaving, the items put under the lock are those the triggering threads brought, in the order in which these took the lock |
| Mpsc.NoneInvented | event.cpp:65-87 | and with those that threads still bring they are all items ever begun, each as often as it was |
| Mpsc.RunSafe | event.cpp:65-298 | for every interleaving: order, nothing twice, nothing but what threads triggered, live memory only, and an item that waits is never left without someone to look |
| Mpsc.ProduceKeepsAttended | event.cpp:292-298 | publishing before activating never leaves an item unattended |
| Mpsc.WorkShrinks | event.cpp:275-284 | with no producer at work the consumer's steps come to an end |
| Mpsc.Drains | event.cpp:275-284 | and then everything ever put under the lock has been handed over, in that order |
| Mpsc.RunDrains | event.cpp:65-298 | once every thread is done, what the callback was given is exactly what was triggered, with the keys and values handed in |
| Mem.NewGroup | mem.cpp:72-88 | a block of its own is a new group |
| Mem.Inserted | mem.cpp:34-60 | linking after any member keeps all groups lists and disjoint |
| Mem.Removed | mem.cpp:100-106 | so does unlinking any member |
| Mem.MovedAll | mem.cpp:62-70 | so does moving any member to other memory |
| Mem.GroupGone | mem.cpp:108-123 | so does freeing a whole group |
| Mem.Memory.EmallocNew | mem.cpp:72-88 | one more live block, in a group of its own |
| Mem.Memory.Emalloc | mem.cpp:34-60 | one more live block, right after its base in the base's group, wherever that group is |
| Mem.Memory.Erealloc | mem.cpp:62-70 | the block keeps its place in its group although its address may change |
| Mem.Memory.Efree | mem.cpp:100-106 | that block and no other is gone, from its group too |
| Mem.Memory.EfreeAll | mem.cpp:108-123 | from any member: each block of the group is freed once, and no other block |
| Mem.Memory.FreeForward | mem.cpp:112-116 | the walk towards the end frees exactly the members after it, reading each link before its block is freed |
| Mem.Memory.FreeBackward | mem.cpp:117-122 | the walk towards the start frees exactly those before it |
| LogRing.Ring.Log | log.cpp:213-251 | the entry, cut to fit or dropped, goes behind the unread bytes and overwrites none; at most size - 1 bytes wait |
| LogRing.Ring.Append | log.cpp:229-247 | with or without a wrap the text ends up behind the unread bytes |
| LogRing.Ring.Drain | log.cpp:292-331 | whatever `fwrite` takes of each stretch, the file grows by exactly the first of the unread bytes and the others still wait, unless the first of two writes is short, which is exactly when the second goes outside the ring |
| LogRing.ShortWriteOutside | log.cpp:292-331 | two bytes that wait on both sides of the end, and a first write that takes none |
| LogRing.Fitted | log.cpp:218-228 | an entry that fits is whole; one that is cut keeps all its first bytes that fit and still ends its line |
| LogRing.AppendRound | log.cpp:236-247 | the two copies round the end of the ring read back as one text |
| Murmur.MurmurHash64A | hash.h:33-74 | the loop and the fall-through switch compute the composition that the laws below are about |
| Murmur.KnownHash | hash.h:33-74 | the hash of a key of one block and three bytes, to the bit |
| Murmur.HashOfNothing | hash.h:33-74 | and the hash of no bytes under two seeds |
| Murmur.StartInjective | hash.h:40-42 | the start loses nothing of the seed, nor of the length |
| Murmur.TimesBack | hash.h:38-58 | multiplication by the constant can be undone, modulo 2^64 |
| Murmur.FoldBack | hash.h:49-72 | the shift-and-xor step undoes itself |
| Murmur.RoundInjective | hash.h:45-54 | a round loses nothing of the state and nothing of the word |
| Murmur.FinishInjective | hash.h:69-73 | the end of the hash loses nothing |
| Murmur.TailInjective | hash.h:58-67 | nor does the tail, of the state or of its own bytes |
| Murmur.NoCollisionInBlock | hash.h:33-74 | keys of one length that differ only inside one 8-byte block never collide |
| Murmur.NoCollisionInTail | hash.h:33-74 | nor do keys that differ only in the bytes after the last block |
| Murmur.NoCollisionOfSeeds | hash.h:33-74 | nor does one key under different seeds |
| Arc4.StepBack | deps/libevent/arc4random.c:408-420 | no step of the generator loses anything of its state, and the table stays a permutation |
| Arc4.OutputIs | deps/libevent/arc4random.c:408-420 | a step exchanges two entries of the table and no other, and gives the entry at their sum |
| Arc4.SeedMatters | deps/libevent/arc4random.c:106-121 | seeds that differ in a single byte of those taken lead to different states |
| Arc4.KeyByteAgain | deps/libevent/arc4random.c:106-121 | a seed that is short is taken again from its start |
| Arc4.StirredIs | deps/libevent/arc4random.c:106-121 | a seeding goes once round the table and ends one entry before where it stood |
| Arc4.Stream.AddRandom | deps/libevent/arc4random.c:106-121 | the table stays a permutation through every seeding |
| Arc4.Stream.GetByte | deps/libevent/arc4random.c:408-420 | and through every output |
| Arc4.Stream.GetWord | deps/libevent/arc4random.c:422-433 | a word is four successive bytes, the first the highest |
| Arc4.LeastIs | deps/libevent/arc4random.c:512-527 | the formula in 32-bit arithmetic is 2^32 modulo the bound, for every bound from 2 on |
| Arc4.CountIs | deps/libevent/arc4random.c:505-538 | how many numbers below n leave a given remainder |
| Arc4.Uniform | deps/libevent/arc4random.c:505-538 | each result comes from equally many accepted draws |
| Arc4.RandomUniform | deps/libevent/arc4random.c:505-538 | the first draw not refused, reduced; draws refused are exactly those below 2^32 modulo the bound |

## Left out

- Sockets, files, pipes, system calls, user callbacks, locks around a buffer, allocation failure and the byte counters kept for callbacks: what the environment answers is a parameter (bytes received, error returns, words drawn, busy locks), or is taken to succeed.
- Pinned, mmap and sendfile chains, `evbuffer_reserve_space` and `evbuffer_commit_space`, and `evbuffer_peek`: not modelled.
- Evbuffers.Evbuffer.ChainInsert: assertions are compiled in, and end the program; what goes on without them is not modelled.
- Widths of sizes in buffers are not modelled: lengths are unbounded, while the C code uses `size_t`; the size of a chain's header and the smallest block are those of a 64-bit build.
- A chain's memory is a field with a byte string of fixed length rather than an array, because the C code allocates it in the same block as the chain; a reference to the user's memory is a copy of it.
- EvbufferRead.Distribute: the loop also does what `readv` does, namely write the bytes into the vectors.
- EvbufferRead.Read: asks that no chain but the last be a reference to an empty piece of memory, since the end is where `evbuffer_add_reference` puts one.
- Edge-triggered interest, signals, and the priorities among active queues: only level-triggered reading and writing, and one active queue.
- Interest.Base.Dispatch: the kernel carries out each call as documented; what it then reports is not modelled.
- Timers.Base.RunDue: the pass has no callbacks of the user's and one reading of the clock, which `TimerRuns.TimerRun` has; the heap is a map rather than an array, since its header is not part of this model; times are whole microseconds and the magic bits that tell durations apart are the place where an event waits.
- Timers.Base.TimeoutCorrect: with a monotonic clock the function does nothing, so the model is of a clock that can go back.
- Bufferevents.StallEnds: asks that the limits fit in 64 bits until the last refill, since one that wraps round loses the stall.
- Bufferevents.Group.Transfer: report, movement and count are one step, so other members do not move bytes in between; and a member whose own update would lose its stall is left out of it.
- DnsEncode.DnsnameToLabels: the array has a byte behind the limit, which stands for the memory there.
- Server replies, `evdns_getaddrinfo`, search domains and the parsing of `resolv.conf` and of host files: mostly plumbing.
- Tagging.Unmarshal: nothing is stated for a payload of 2^31 bytes or more: its length, negative by then, asks for a chain so large that the loop that doubles the size up to it never ends.
- Tagging.DecodeTag: what lies behind the five bytes it looks at is the outcome `Outside`.
- Pair.Ends.Write: asks that the output can take the bytes (`Pair.Channel.Write` and `Lend` say what happens otherwise), and says of an input with an empty chain at its end only that the move may break it; the callbacks that watermarks trigger are changes to an end that its user makes.
- Mpsc.StepInv: memory is sequentially consistent; a trigger from the consumer's own thread is one more producer.
- LogRing.Ring.Drain: writer and reader are single steps.
- Mem.Memory.Emalloc: sizes and the bytes of a block are not modelled, apart from the owner's data that is copied from the base.
- Murmur.MurmurHash64A: words are loaded with the least significant byte first, as on the machines the agent runs on, and keys are at most as long as an `int` counts.
- Arc4.RandomUniform: draws are a list; the outcome `Undecided` is that none of them is accepted.
- `req.cpp`, `connection.cpp`, `ip_whitelist.cpp`, `dl.cpp`, configuration, the router and the pools: they depend on code not shown or do input and output.
