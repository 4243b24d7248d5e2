/** The chains of an evbuffer (deps/libevent/evbuffer-internal.h) and runs of them. */
module Chains {
  import opened Bytes

  const MIN_BUFFER_SIZE := 1024
  const CHAIN_HEADER_SIZE := 48
  const MAX_AUTO_SIZE := 4096
  const MAX_TO_REALIGN := 2048

  /** The usable size of the chain allocated for size bytes. */
  method ChainCapacity(size: nat) returns (capacity: nat)
    ensures size <= capacity && capacity > 0
    ensures capacity + CHAIN_HEADER_SIZE == MIN_BUFFER_SIZE ||
            capacity + CHAIN_HEADER_SIZE < 2 * (size + CHAIN_HEADER_SIZE)
  {
    var wanted := size + CHAIN_HEADER_SIZE;
    var toAlloc := MIN_BUFFER_SIZE;
    while toAlloc < wanted
      invariant toAlloc == MIN_BUFFER_SIZE || MIN_BUFFER_SIZE <= toAlloc < 2 * wanted
    {
      toAlloc := toAlloc * 2;
    }
    capacity := toAlloc - CHAIN_HEADER_SIZE;
  }

  /** One chain: `off` live bytes at `misalign` in its block of memory, which spell
      `data`.  An immutable chain (a reference to the user's memory) has no room at
      its end. */
  class Chain {
    var next: Chain?
    const immutable: bool
    var memory: seq<Byte>
    var misalign: nat
    var off: nat
    ghost var data: seq<Byte>

    ghost predicate Ok()
      reads this`memory, this`misalign, this`off, this`data
    {
      && misalign + off <= |memory|
      && (if immutable then misalign + off == |memory| else |memory| > 0)
      && data == memory[misalign..misalign + off]
    }

    lemma Length()
      requires Ok()
      ensures off == |data|
    {
    }

    constructor (capacity: nat)
      requires capacity > 0
      ensures next == null && misalign == 0 && data == [] && !immutable
      ensures Ok() && |memory| == capacity
    {
      next, misalign, off, immutable := null, 0, 0, false;
      memory := seq(capacity, _ => 0);
      data := [];
    }

    constructor Reference(bytes: seq<Byte>)
      ensures next == null && misalign == 0 && data == bytes && immutable
      ensures Ok()
    {
      next, misalign, off, immutable := null, 0, |bytes|, true;
      memory := bytes;
      data := bytes;
    }

    /** CHAIN_SPACE_LEN. */
    function Space(): (n: nat)
      requires Ok()
      reads this`memory, this`misalign, this`off, this`data
    {
      if immutable then 0 else |memory| - (misalign + off)
    }

    /** Some of the live bytes, read out of the memory. */
    method Read(from: nat, n: nat) returns (bytes: seq<Byte>)
      requires Ok() && from + n <= off
      ensures |data| == off && bytes == data[from..from + n]
    {
      bytes := memory[misalign + from..misalign + from + n];
      SliceOfSlice(memory, misalign, off, from, n);
    }

    /** memcpy into the chain's memory. */
    method Write(at: nat, bytes: seq<Byte>)
      requires at + |bytes| <= |memory|
      modifies this`memory
      ensures memory == old(memory[..at]) + bytes + old(memory[at + |bytes|..])
    {
      memory := memory[..at] + bytes + memory[at + |bytes|..];
    }

    method Append(bytes: seq<Byte>)
      requires Ok() && |bytes| <= Space()
      modifies this`memory, this`off, this`data
      ensures Ok() && data == old(data) + bytes
      ensures |memory| == old(|memory|)
    {
      if |bytes| > 0 {
        WrittenAfter(memory, misalign, off, bytes);
        Write(misalign + off, bytes);
      }
      off, data := off + |bytes|, data + bytes;
    }

    /** Fills the misalignment with the bytes that come just before. */
    method PutFront(bytes: seq<Byte>)
      requires Ok() && !immutable && |bytes| <= misalign
      modifies this`memory, this`misalign, this`off, this`data
      ensures Ok() && data == bytes + old(data)
      ensures misalign == old(misalign) - |bytes| && |memory| == old(|memory|)
    {
      WrittenBefore(memory, misalign, off, bytes);
      Write(misalign - |bytes|, bytes);
      off, misalign, data := off + |bytes|, misalign - |bytes|, bytes + data;
    }

    /** evbuffer_chain_align. */
    method Align()
      requires Ok() && !immutable
      modifies this`memory, this`misalign
      ensures Ok() && misalign == 0 && |memory| == old(|memory|)
    {
      Write(0, memory[misalign..misalign + off]);
      misalign := 0;
    }

    method Trim(n: nat)
      requires Ok() && n <= off
      modifies this`misalign, this`off, this`data
      ensures Ok() && data == old(data)[n..]
    {
      misalign, off, data := misalign + n, off - n, data[n..];
    }

    /** The bytes fit once the live ones, at most 2048 and less than half of the memory, are
        at its start. */
    predicate ShouldRealign(n: nat): (r: bool)
      requires Ok()
      reads this`memory, this`misalign, this`off, this`data
      ensures r ==> off + n <= |memory| && 2 * off < |memory| && off <= 2048
      ensures !r ==> off + n > |memory| || 2 * off + 1 >= |memory| || off > 2048
    {
      |memory| - off >= n && off < |memory| / 2 && off <= MAX_TO_REALIGN
    }
  }

  /** How much to allocate after a chain of some size, to hold n bytes. */
  function NextSize(size: nat, n: nat): (toAlloc: nat)
    ensures n <= toAlloc && size <= toAlloc
    ensures size <= 2048 ==> 2 * size <= toAlloc && (toAlloc == n || toAlloc == 2 * size)
    ensures size > 2048 ==> toAlloc == n || toAlloc == size
  {
    var doubled := if size <= MAX_AUTO_SIZE / 2 then 2 * size else size;
    if n > doubled then n else doubled
  }

  /** A chain allocated for size bytes, with some written at its start. */
  method NewChain(size: nat, bytes: seq<Byte>) returns (chain: Chain)
    requires |bytes| <= size
    ensures fresh(chain) && chain.Ok() && chain.data == bytes && chain.next == null
    ensures !chain.immutable && chain.misalign == 0 && |chain.memory| >= size
    ensures chain.Space() + |bytes| == |chain.memory| > 0
  {
    var capacity := ChainCapacity(size);
    chain := new Chain(capacity);
    chain.Append(bytes);
  }

  /** A chain allocated for some bytes, written at its end. */
  method NewChainAtEnd(bytes: seq<Byte>) returns (chain: Chain)
    ensures fresh(chain) && chain.Ok() && chain.data == bytes && chain.next == null && !chain.immutable
  {
    var capacity := ChainCapacity(|bytes|);
    chain := new Chain(capacity);
    chain.misalign := capacity;
    assert chain.data == chain.memory[chain.misalign..chain.misalign + chain.off];
    chain.PutFront(bytes);
  }

  /** Chain i of a list, and null past its ends. */
  ghost function Nth(chains: seq<Chain>, i: int): Chain?
  {
    if 0 <= i < |chains| then chains[i] else null
  }

  /** A list of distinct chains, with the data of each. */
  ghost predicate Listing(chains: seq<Chain>, datas: seq<seq<Byte>>, cells: set<Chain>)
  {
    && |datas| == |chains|
    && (forall i | 0 <= i < |chains| :: chains[i] in cells)
    && (forall i, j | 0 <= i < j < |chains| :: chains[i] != chains[j])
  }

  /** A run of chains that spell the pieces of data and lead one to the next, the
      last of them to end. */
  ghost predicate Segment(chains: seq<Chain>, datas: seq<seq<Byte>>, cells: set<Chain>, end: Chain?)
    reads cells
  {
    && Listing(chains, datas, cells)
    && (forall i | 0 <= i < |chains| :: chains[i].Ok() && chains[i].data == datas[i])
    && (forall i {:trigger chains[i].next} | 0 <= i < |chains| ::
          chains[i].next == if i + 1 < |chains| then chains[i + 1] else end)
  }

  lemma SegmentNil(cells: set<Chain>, end: Chain?)
    ensures Segment([], [], cells, end)
  {
  }

  lemma SegmentOne(c: Chain, cells: set<Chain>)
    requires c in cells && c.Ok()
    ensures Segment([c], [c.data], cells, c.next)
  {
    hide Chain.Ok;
  }

  lemma SegmentWiden(chains: seq<Chain>, datas: seq<seq<Byte>>, cells: set<Chain>, more: set<Chain>, end: Chain?)
    requires Segment(chains, datas, cells, end)
    ensures Segment(chains, datas, cells + more, end)
  {
    hide Chain.Ok;
  }

  lemma SegmentSplit(chains: seq<Chain>, datas: seq<seq<Byte>>, cells: set<Chain>, end: Chain?, i: nat)
    requires Segment(chains, datas, cells, end) && i <= |chains|
    ensures i <= |datas| == |chains|
    ensures Segment(chains[..i], datas[..i], cells, if i < |chains| then chains[i] else end)
    ensures Segment(chains[i..], datas[i..], cells, end)
  {
    hide Chain.Ok;
  }

  lemma SegmentNext(chains: seq<Chain>, datas: seq<seq<Byte>>, cells: set<Chain>, end: Chain?)
    requires chains != [] && Segment(chains, datas, cells, end)
    ensures |datas| == |chains| && chains[|chains| - 1] in cells && chains[|chains| - 1].next == end
  {
    hide Chain.Ok;
  }

  lemma SegmentJoin(a: seq<Chain>, da: seq<seq<Byte>>, b: seq<Chain>, db: seq<seq<Byte>>, cells: set<Chain>,
        end: Chain?)
    requires Segment(a, da, cells, if b == [] then end else b[0]) && Segment(b, db, cells, end)
    requires forall i, j | 0 <= i < |a| && 0 <= j < |b| :: a[i] != b[j]
    ensures Segment(a + b, da + db, cells, end)
  {
    hide Chain.Ok;
  }

  lemma SegmentPush(c: Chain, chains: seq<Chain>, datas: seq<seq<Byte>>, cells: set<Chain>, end: Chain?)
    requires Segment(chains, datas, cells, end) && chains != [] && c !in cells && c.Ok() && c.next == chains[0]
    ensures Segment([c] + chains, [c.data] + datas, cells + {c}, end)
  {
    assert c !in chains;
    hide Chain.Ok;
    SegmentWiden(chains, datas, cells, {c}, end);
    SegmentOne(c, cells + {c});
    SegmentJoin([c], [c.data], chains, datas, cells + {c}, end);
  }

  lemma HeadNotIn(chains: seq<Chain>, datas: seq<seq<Byte>>, cells: set<Chain>, end: Chain?, i: nat)
    requires chains != [] && Segment(chains, datas, cells, end) && 0 < i <= |chains|
    ensures chains[0] !in chains[i..]
  {
    hide Chain.Ok;
  }

  lemma SegmentHead(chains: seq<Chain>, datas: seq<seq<Byte>>, cells: set<Chain>, end: Chain?)
    requires chains != [] && Segment(chains, datas, cells, end)
    ensures |datas| == |chains| && chains[0] in cells && chains[0].Ok()
    ensures chains[0].data == datas[0] && chains[0].off == |datas[0]|
  {
  }

  lemma RoomMeansMutable(c: Chain, n: nat)
    requires c.Ok() && c.off < n <= |c.memory| - c.misalign
    ensures !c.immutable && n - c.off <= c.Space()
  {
  }

  /** A run may be accounted to any set with its chains. */
  lemma SegmentIn(chains: seq<Chain>, datas: seq<seq<Byte>>, cells: set<Chain>, others: set<Chain>, end: Chain?)
    requires Segment(chains, datas, cells, end) && forall i | 0 <= i < |chains| :: chains[i] in others
    ensures Segment(chains, datas, others, end)
  {
    hide Chain.Ok;
  }

  /** The chains of a run before chain i are not among those from it on. */
  lemma SegmentPart(chains: seq<Chain>, datas: seq<seq<Byte>>, cells: set<Chain>, end: Chain?, i: nat)
    requires Segment(chains, datas, cells, end) && i <= |chains|
    ensures |datas| == |chains| && (forall j | 0 <= j < |chains| :: chains[j] in cells)
    ensures forall j | 0 <= j < |chains[i..]| :: chains[i..][j] !in chains[..i]
  {
    hide Chain.Ok;
  }

  lemma NthAt(a: seq<Chain>, i: nat)
    requires i < |a|
    ensures Nth(a, i) == a[i]
  {
  }

  /** The ends of two lists joined, and the link that leads to chain k of the second. */
  lemma JoinEnds(a: seq<Chain>, b: seq<Chain>, k: nat)
    requires a != [] && b != []
    ensures Nth(a + b, 0) == Nth(a, 0) && Nth(a + b, |a + b| - 1) == Nth(b, |b| - 1)
    ensures k <= |b| ==> Nth(a + b, |a| + k - 1) == if k == 0 then Nth(a, |a| - 1) else Nth(b, k - 1)
    ensures k == 0 ==> Nth(b, k - 1) == null
  {
  }


  /** Joins two runs that belong to different buffers. */
  lemma SegmentBoth(a: seq<Chain>, da: seq<seq<Byte>>, cells: set<Chain>,
                    b: seq<Chain>, db: seq<seq<Byte>>, others: set<Chain>)
    requires b != [] && Segment(a, da, cells, b[0]) && Segment(b, db, others, null) && cells !! others
    ensures Segment(a + b, da + db, cells + others, null)
  {
    hide Chain.Ok;
    SegmentWiden(a, da, cells, others, b[0]);
    SegmentWiden(b, db, others, cells, null);
    assert others + cells == cells + others;
    SegmentJoin(a, da, b, db, cells + others, null);
  }

  /** Sets the link out of the last chain of a run. */
  method SetEnd(last: Chain, end: Chain?, ghost chains: seq<Chain>, ghost datas: seq<seq<Byte>>,
        ghost cells: set<Chain>)
    requires chains != [] && Segment(chains, datas, cells, last.next) && last == chains[|chains| - 1]
    modifies last`next
    ensures Segment(chains, datas, cells, end) && last.next == end
  {
    hide Chain.Ok;
    last.next := end;
  }

  /** Appends to the live bytes of chain i of a run, in the room after them. */
  method AppendIn(c: Chain, bytes: seq<Byte>, ghost i: nat, ghost chains: seq<Chain>, ghost datas: seq<seq<Byte>>,
                  ghost cells: set<Chain>, ghost end: Chain?)
    requires Segment(chains, datas, cells, end) && c == Nth(chains, i)
    requires c.Ok() && |bytes| <= c.Space()
    modifies c`memory, c`off, c`data
    ensures |datas| == |chains| && Segment(chains, datas[i := datas[i] + bytes], cells, end)
    ensures c.Ok() && c.Space() == old(c.Space()) - |bytes| && |c.memory| == old(|c.memory|)
  {
    c.Append(bytes);
    assert c.Space() == old(c.Space()) - |bytes|;
    hide Chain.Ok;
  }

  /** Puts bytes before the live bytes of the first chain of a run. */
  method PutFrontIn(c: Chain, bytes: seq<Byte>, ghost chains: seq<Chain>, ghost datas: seq<seq<Byte>>,
                    ghost cells: set<Chain>, ghost end: Chain?)
    requires Segment(chains, datas, cells, end) && c == Nth(chains, 0)
    requires c.Ok() && !c.immutable && |bytes| <= c.misalign
    modifies c`memory, c`off, c`misalign, c`data
    ensures |datas| == |chains| && Segment(chains, datas[0 := bytes + datas[0]], cells, end)
    ensures c.Ok() && c.misalign == old(c.misalign) - |bytes|
  {
    c.PutFront(bytes);
    hide Chain.Ok;
  }

  /** Drops bytes from the front of the first chain of a run. */
  method TrimIn(c: Chain, n: nat, ghost chains: seq<Chain>, ghost datas: seq<seq<Byte>>,
                ghost cells: set<Chain>, ghost end: Chain?)
    requires Segment(chains, datas, cells, end) && c == Nth(chains, 0) && c.Ok() && n <= c.off
    modifies c`misalign, c`off, c`data
    ensures |datas| == |chains| && n <= |datas[0]| && Segment(chains, datas[0 := datas[0][n..]], cells, end)
    ensures c.Ok() && c.off == old(c.off) - n
  {
    assert c.off == |c.data|;
    c.Trim(n);
    hide Chain.Ok;
  }

  /** Realigns chain i of a run, which moves no live byte. */
  method AlignIn(c: Chain, ghost i: nat, ghost chains: seq<Chain>, ghost datas: seq<seq<Byte>>,
                 ghost cells: set<Chain>, ghost end: Chain?)
    requires Segment(chains, datas, cells, end) && c == Nth(chains, i) && c.Ok() && !c.immutable
    modifies c`memory, c`misalign
    ensures Segment(chains, datas, cells, end)
    ensures c.Ok() && c.misalign == 0 && |c.memory| == old(|c.memory|) && c.Space() == |c.memory| - c.off
  {
    c.Align();
    assert c.Space() == |c.memory| - c.off;
    hide Chain.Ok;
  }

  /** Treats the empty chain i of a run as empty at its beginning. */
  method EmptyAtEndIn(c: Chain, ghost i: nat, ghost chains: seq<Chain>, ghost datas: seq<seq<Byte>>,
                      ghost cells: set<Chain>, ghost end: Chain?)
    requires Segment(chains, datas, cells, end) && c == Nth(chains, i) && c.Ok() && !c.immutable && c.off == 0
    modifies c`misalign
    ensures Segment(chains, datas, cells, end) && c.Ok() && c.misalign == |c.memory|
  {
    c.misalign := |c.memory|;
    assert c.Ok();
    hide Chain.Ok;
  }

  /** Treats the empty chain i of a run as empty at its end. */
  method EmptyAtStartIn(c: Chain, ghost i: nat, ghost chains: seq<Chain>, ghost datas: seq<seq<Byte>>,
                        ghost cells: set<Chain>, ghost end: Chain?)
    requires Segment(chains, datas, cells, end) && c == Nth(chains, i) && c.Ok() && !c.immutable && c.off == 0
    modifies c`misalign
    ensures Segment(chains, datas, cells, end) && c.Ok() && c.Space() == |c.memory| > 0
  {
    c.misalign := 0;
    assert c.Ok() && c.Space() == |c.memory| > 0;
    hide Chain.Ok;
  }

  /** How much room there is at the end of the chains from one on; the first s of
      them may have been written since. */
  ghost predicate Rooms(chains: seq<Chain>, from: nat, rooms: seq<nat>, s: nat, cells: set<Chain>)
    reads cells`memory, cells`misalign, cells`off, cells`data
  {
    && from + |rooms| <= |chains|
    && forall i {:trigger chains[i]} | from + s <= i < from + |rooms| ::
         chains[i] in cells && chains[i].Ok() && chains[i].Space() == rooms[i - from]
  }

  lemma RoomsIn(chains: seq<Chain>, from: nat, rooms: seq<nat>, s: nat, cells: set<Chain>, others: set<Chain>)
    requires Rooms(chains, from, rooms, s, cells)
    requires forall i | from + s <= i < from + |rooms| :: chains[i] in others
    ensures Rooms(chains, from, rooms, s, others)
  {
  }

  lemma RoomsAdd(chains: seq<Chain>, from: nat, rooms: seq<nat>, cells: set<Chain>)
    requires Rooms(chains, from, rooms, 0, cells) && from + |rooms| < |chains|
    requires chains[from + |rooms|] in cells && chains[from + |rooms|].Ok()
    ensures Rooms(chains, from, rooms + [chains[from + |rooms|].Space()], 0, cells)
  {
  }

  lemma RoomsNone(chains: seq<Chain>, from: nat, cells: set<Chain>)
    requires from <= |chains|
    ensures Rooms(chains, from, [], 0, cells)
  {
  }

  lemma RoomsAt(chains: seq<Chain>, from: nat, rooms: seq<nat>, s: nat, cells: set<Chain>, j: nat)
    requires Rooms(chains, from, rooms, s, cells) && s <= j < |rooms|
    ensures from + j < |chains| && chains[from + j] in cells && chains[from + j].Ok()
    ensures chains[from + j].Space() == rooms[j]
  {
  }

  lemma RoomsSkip(chains: seq<Chain>, from: nat, rooms: seq<nat>, s: nat, t: nat, cells: set<Chain>)
    requires Rooms(chains, from, rooms, s, cells) && s <= t
    ensures Rooms(chains, from, rooms, t, cells)
  {
  }

  lemma RoomsFit(chains: seq<Chain>, from: nat, rooms: seq<nat>, s: nat, cells: set<Chain>)
    requires Rooms(chains, from, rooms, s, cells)
    ensures from + |rooms| <= |chains|
  {
  }

  /** The rooms of the first chains of a longer list. */
  lemma RoomsLonger(chains: seq<Chain>, more: seq<Chain>, from: nat, rooms: seq<nat>, cells: set<Chain>)
    requires Rooms(chains, from, rooms, 0, cells)
    ensures Rooms(chains + more, from, rooms, 0, cells)
  {
  }
}
