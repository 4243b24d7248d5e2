/** Reading from a socket straight into a buffer's chains (deps/libevent/buffer.c). */
module EvbufferRead {
  import opened Bytes
  import opened Chains
  import opened Pieces
  import opened Evbuffers

  ghost function Sum(rooms: seq<nat>): nat
  {
    if rooms == [] then 0 else Sum(rooms[..|rooms| - 1]) + rooms[|rooms| - 1]
  }

  lemma SumNone()
    ensures Sum([]) == 0
  {
  }

  lemma SumAdd(rooms: seq<nat>, n: nat)
    ensures Sum(rooms + [n]) == Sum(rooms) + n
  {
    assert (rooms + [n])[..|rooms|] == rooms;
  }

  /** No reference to an empty piece of the user's memory. */
  ghost predicate NoEmptyRefs(buf: Evbuffer)
    reads buf`chains, buf`datas
  {
    forall i | 0 <= i < |buf.chains| && i < |buf.datas| :: buf.chains[i].immutable ==> buf.datas[i] != []
  }

  /** Only the last chain may be such a reference. */
  ghost predicate EmptyRefLast(buf: Evbuffer)
    reads buf`chains, buf`datas
  {
    forall i | 0 <= i < |buf.chains| - 1 && i < |buf.datas| :: buf.chains[i].immutable ==> buf.datas[i] != []
  }

  lemma LastNoReference(buf: Evbuffer)
    requires buf.Wf() && EmptyRefLast(buf) && buf.last != null && !buf.last.immutable
    ensures NoEmptyRefs(buf)
  {
    hide Segment;
    hide Flat;
    buf.Members();
    assert buf.last == buf.chains[|buf.chains| - 1];
  }

  /** The index of the first chain with room, from last_with_datap on. */
  ghost function FirstWithRoom(buf: Evbuffer): nat
    requires buf.k < |buf.chains| && buf.chains[buf.k].Ok()
    reads buf`chains, buf`k, buf.chains
  {
    if buf.chains[buf.k].Space() == 0 then buf.k + 1 else buf.k
  }

  /** Looks for datlen bytes of room in at most n chains from last_with_datap on,
      realigning the empty ones it meets. */
  method ScanRoom(buf: Evbuffer, datlen: nat, n: nat)
    returns (enough: bool, used: nat, avail: nat, ghost from: nat, ghost rooms: seq<nat>)
    requires buf.Valid() && buf.chains != [] && NoEmptyRefs(buf) && n > 0
    modifies buf.cells`misalign
    ensures buf.Valid() && buf.k < |buf.chains| && buf.chains[buf.k].Ok() && from == FirstWithRoom(buf)
    ensures used == |rooms| <= n && avail == Sum(rooms) && from + used <= |buf.chains|
    ensures Rooms(buf.chains, from, rooms, 0, buf.cells) && forall i | 0 <= i < used :: rooms[i] > 0
    ensures enough <==> avail >= datlen
    ensures |buf.datas| == |buf.chains| && (buf.datas[buf.k] == [] ==> buf.chains[buf.k].Space() > 0)
    ensures !enough && used < n ==> from + used == |buf.chains|
  {
    hide Segment;
    hide Flat;
    hide Chain.Ok;
    hide LastWithData;
    hide Rooms;
    hide Sum;
    SumNone();
    buf.Members();
    ghost var k, j := buf.k, buf.k;
    enough, used, avail, rooms, from := false, 0, 0, [], k;
    buf.ChainAt(k);
    if k > 0 {
      buf.ChainAt(k - 1);
    }
    var c := if buf.lwd == null then buf.first else buf.lwd.next;
    RoomsNone(buf.chains, k, buf.cells);
    var room := RoomOf(buf, c, k, k, []);
    if room > 0 {
      RoomsAdd(buf.chains, k, [], buf.cells);
      SumAdd(rooms, room);
      avail, used, rooms := room, 1, rooms + [room];
    } else {
      from := k + 1;
      RoomsNone(buf.chains, k + 1, buf.cells);
    }
    c, j, enough := c.next, j + 1, avail >= datlen;
    if !enough {
      enough, used, avail, rooms := ScanRest(buf, c, datlen, n, used, avail, from, rooms);
    }
  }

  /** The part of the scan after the chain that last_with_datap leads to. */
  method ScanRest(buf: Evbuffer, start: Chain?, datlen: nat, n: nat, used0: nat, avail0: nat, ghost from: nat,
        ghost rooms0: seq<nat>)
    returns (enough: bool, used: nat, avail: nat, ghost rooms: seq<nat>)
    requires buf.Valid() && buf.k < |buf.chains| && buf.chains[buf.k].Ok() && from == FirstWithRoom(buf)
    requires NoEmptyRefs(buf)
    requires used0 == |rooms0| <= n && avail0 == Sum(rooms0) < datlen
    requires from + used0 == buf.k + 1 && start == Nth(buf.chains, buf.k + 1)
    requires Rooms(buf.chains, from, rooms0, 0, buf.cells) && forall i | 0 <= i < used0 :: rooms0[i] > 0
    modifies buf.cells`misalign
    ensures buf.Valid() && buf.chains[buf.k].Ok() && buf.chains[buf.k].Space() == old(buf.chains[buf.k].Space())
    ensures used == |rooms| <= n && avail == Sum(rooms) && from + used <= |buf.chains|
    ensures Rooms(buf.chains, from, rooms, 0, buf.cells) && forall i | 0 <= i < used :: rooms[i] > 0
    ensures enough <==> avail >= datlen
    ensures !enough && used < n ==> from + used == |buf.chains|
  {
    hide Segment;
    hide Flat;
    hide Chain.Ok;
    hide LastWithData;
    hide Rooms;
    ghost var roomK := buf.chains[buf.k].Space();
    var c := start;
    ghost var j := buf.k + 1;
    enough, used, avail, rooms := false, used0, avail0, rooms0;
    while c != null && !enough && used < n
      invariant buf.k < j <= |buf.chains| && c == Nth(buf.chains, j) && buf.Wf()
      invariant used == |rooms| <= n && avail == Sum(rooms) && from + used == j && (enough <==> avail >= datlen)
      invariant buf.chains[buf.k].Ok() && buf.chains[buf.k].Space() == roomK
      invariant Rooms(buf.chains, from, rooms, 0, buf.cells)
      invariant forall i | 0 <= i < used :: rooms[i] > 0
      decreases |buf.chains| - j
    {
      var room := RoomOf(buf, c, j, from, rooms);
      RoomsAdd(buf.chains, from, rooms, buf.cells);
      SumAdd(rooms, room);
      avail, used, rooms := avail + room, used + 1, rooms + [room];
      c, j, enough := c.next, j + 1, avail >= datlen;
    }
  }

  /** Room for datlen bytes within n chains from the first with room. */
  ghost predicate HasRoom(buf: Evbuffer, rooms: seq<nat>, datlen: nat, n: nat)
    requires buf.Wf() && buf.chains != []
    reads buf, buf.cells
  {
    buf.ChainAt(buf.k);
    var from := FirstWithRoom(buf);
    && |rooms| <= n
    && Rooms(buf.chains, from, rooms, 0, buf.cells)
    && (forall i | 0 <= i < |rooms| :: rooms[i] > 0)
    && Sum(rooms) >= datlen
    && (buf.datas[buf.k] == [] ==> buf.chains[buf.k].Space() > 0)
  }

  /** _evbuffer_expand_fast: makes room without moving any byte. */
  method ExpandFast(buf: Evbuffer, datlen: nat, n: nat) returns (ghost rooms: seq<nat>)
    requires buf.Valid() && EmptyRefLast(buf) && n >= 2
    modifies buf, buf.cells
    ensures buf.Valid() && NoEmptyRefs(buf)
    ensures buf.freezeStart == old(buf.freezeStart) && buf.freezeEnd == old(buf.freezeEnd)
    ensures forall c | c in buf.cells && c !in old(buf.cells) :: fresh(c) && !c.immutable
    ensures buf.Contents() == old(buf.Contents())
    ensures buf.chains != [] && HasRoom(buf, rooms, datlen, n)
  {
    hide Segment;
    hide Flat;
    hide Chain.Ok;
    hide LastWithData;
    hide Rooms;
    if buf.last == null || buf.last.immutable {
      rooms := InsertRoom(buf, datlen);
      return;
    }
    LastNoReference(buf);
    var enough, used, avail;
    ghost var from;
    enough, used, avail, from, rooms := ScanRoom(buf, datlen, n);
    if enough {
      return;
    }
    if used < n {
      rooms := AddAfter(buf, datlen - avail, n, from, rooms);
    } else {
      var kept := RoomInLast(buf);
      SumHead(rooms);
      if from == buf.k {
        RoomsAt(buf.chains, from, rooms, 0, buf.cells, 0);
      }
      rooms := InsertRoom(buf, datlen - kept);
    }
  }

  lemma {:induction false} SumHead(rooms: seq<nat>)
    ensures rooms != [] ==> rooms[0] <= Sum(rooms)
  {
    if |rooms| > 1 {
      SumHead(rooms[..|rooms| - 1]);
    }
  }

  /** The room at the end of the last chain with data, if there is data. */
  ghost function KeptRoom(buf: Evbuffer): nat
    requires buf.Wf()
    reads buf, buf.cells
  {
    if buf.chains == [] then 0 else
      buf.ChainAt(buf.k);
      if buf.datas[buf.k] == [] then 0 else buf.chains[buf.k].Space()
  }

  method RoomInLast(buf: Evbuffer) returns (room: nat)
    requires buf.Valid() && buf.chains != []
    ensures room == KeptRoom(buf)
  {
    hide Segment;
    hide Flat;
    hide Chain.Ok;
    hide LastWithData;
    buf.ChainAt(buf.k);
    if buf.k > 0 {
      buf.ChainAt(buf.k - 1);
    }
    var chain := if buf.lwd == null then buf.first else buf.lwd.next;
    room := if chain.off == 0 then 0 else chain.Space();
  }

  /** Puts a new chain in the place of all the empty ones. */
  method InsertRoom(buf: Evbuffer, size: nat) returns (ghost rooms: seq<nat>)
    requires buf.Valid() && EmptyRefLast(buf)
    modifies buf, buf.cells
    ensures buf.Valid() && NoEmptyRefs(buf)
    ensures buf.freezeStart == old(buf.freezeStart) && buf.freezeEnd == old(buf.freezeEnd)
    ensures forall c | c in buf.cells && c !in old(buf.cells) :: fresh(c) && !c.immutable
    ensures buf.Contents() == old(buf.Contents())
    ensures buf.chains != [] && HasRoom(buf, rooms, old(KeptRoom(buf)) + size, 2)
    ensures |buf.datas| == |buf.chains| && buf.datas[|buf.datas| - 1] == []
  {
    hide Segment;
    hide Flat;
    hide Chain.Ok;
    hide LastWithData;
    hide Rooms;
    ghost var v := Victim(buf.datas, buf.k);
    ghost var was := buf.chains;
    var tmp := NewChain(size, []);
    if was != [] {
      buf.ChainAt(buf.k);
    }
    var _ := buf.ChainInsert(tmp);
    assert buf.datas[v] == [] && (v == buf.k + 1 ==> buf.datas[buf.k] == old(buf.datas)[buf.k]);
    assert NoEmptyRefs(buf) by {
      forall i | 0 <= i < |buf.chains| && i < |buf.datas| ensures buf.chains[i].immutable ==> buf.datas[i] != [] {
        if i < v {
          assert buf.chains[i] == was[i] && buf.datas[i] == old(buf.datas)[i];
        }
      }
    }
    buf.ChainAt(buf.k);
    rooms := LastRooms(buf, size);
  }

  /** The room in the last chain, an empty one, and in the chain with data before. */
  lemma LastRooms(buf: Evbuffer, size: nat) returns (rooms: seq<nat>)
    requires buf.Wf() && buf.chains != [] && |buf.chains| == |buf.datas| <= buf.k + 2
    requires buf.datas[|buf.datas| - 1] == [] && (|buf.chains| == buf.k + 2 ==> buf.datas[buf.k] != [])
    requires buf.last.Ok() && buf.last.Space() >= size && buf.last.Space() > 0
    ensures HasRoom(buf, rooms, KeptRoom(buf) + size, 2)
  {
    hide Segment;
    hide Flat;
    hide Chain.Ok;
    hide LastWithData;
    hide Rooms;
    buf.ChainAt(buf.k);
    buf.ChainAt(|buf.chains| - 1);
    var from := FirstWithRoom(buf);
    RoomsNone(buf.chains, from, buf.cells);
    RoomsAdd(buf.chains, from, [], buf.cells);
    SumAdd([], buf.chains[from].Space());
    rooms := [buf.chains[from].Space()];
    if from + 1 < |buf.chains| {
      RoomsAdd(buf.chains, from, rooms, buf.cells);
      SumAdd(rooms, buf.last.Space());
      rooms := rooms + [buf.last.Space()];
    }
  }

  /** Links an empty chain after the others. */
  method AddEmpty(buf: Evbuffer, tmp: Chain)
    requires buf.Valid() && NoEmptyRefs(buf) && buf.chains != []
    requires tmp.next == null && tmp.Ok() && tmp.data == [] && !tmp.immutable && tmp !in buf.cells
    modifies buf`first, buf`last, buf`chains, buf`datas, buf`cells, buf.cells`next
    ensures buf.Valid() && NoEmptyRefs(buf) && buf.Contents() == old(buf.Contents())
    ensures buf.chains == old(buf.chains) + [tmp] && buf.cells == old(buf.cells) + {tmp}
    ensures buf.datas == old(buf.datas) + [[]] && |old(buf.datas)| == |old(buf.chains)|
  {
    hide Segment;
    hide Flat;
    hide Chain.Ok;
    hide LastWithData;
    buf.Members();
    AppendEmpty(buf.datas, buf.k);
    ghost var was := buf.chains;
    assert was[..|was|] == was && buf.datas[..|was|] == buf.datas;
    buf.StoreTail(buf.last, tmp, |buf.chains|);
  }

  /** Puts a new chain after the others. */
  method AddAfter(buf: Evbuffer, size: nat, n: nat, ghost from: nat, ghost before: seq<nat>)
    returns (ghost rooms: seq<nat>)
    requires buf.Valid() && NoEmptyRefs(buf) && buf.chains != [] && size > 0
    requires HasRoom(buf, before, 0, n) && |before| < n && from == FirstWithRoom(buf)
    requires from + |before| == |buf.chains|
    modifies buf`first, buf`last, buf`chains, buf`datas, buf`cells, buf.cells`next
    ensures buf.Valid() && NoEmptyRefs(buf)
    ensures forall c | c in buf.cells && c !in old(buf.cells) :: fresh(c) && !c.immutable
    ensures buf.Contents() == old(buf.Contents())
    ensures buf.chains != [] && HasRoom(buf, rooms, Sum(before) + size, n)
  {
    hide Segment;
    hide Flat;
    hide Chain.Ok;
    hide LastWithData;
    hide Rooms;
    hide NoEmptyRefs;
    hide Evbuffer.Linked;
    var tmp := NewChain(size, []);
    ghost var was := buf.chains;
    buf.Members();
    buf.ChainAt(buf.k);
    RoomsIn(was, from, before, 0, buf.cells, buf.cells + {tmp});
    AddEmpty(buf, tmp);
    RoomsLonger(was, [tmp], from, before, buf.cells);
    RoomsAdd(buf.chains, from, before, buf.cells);
    SumAdd(before, tmp.Space());
    rooms := before + [tmp.Space()];
  }

  /** The room at the end of chain j, realigned when it is empty. */
  method RoomOf(buf: Evbuffer, c: Chain, ghost j: nat, ghost from: nat, ghost rooms: seq<nat>) returns (room: nat)
    requires buf.Valid() && buf.k <= j && c == Nth(buf.chains, j) && NoEmptyRefs(buf)
    requires buf.k <= from && from + |rooms| <= j && Rooms(buf.chains, from, rooms, 0, buf.cells)
    modifies buf.cells`misalign
    ensures buf.Wf() && c.Ok() && c in buf.cells && c.Space() == room && (c.off == 0 ==> room > 0)
    ensures j > buf.k ==> room > 0
    ensures c.next == Nth(buf.chains, j + 1)
    ensures Rooms(buf.chains, from, rooms, 0, buf.cells)
    ensures j > buf.k && old(buf.chains[buf.k].Ok()) ==>
      buf.chains[buf.k].Ok() && buf.chains[buf.k].Space() == old(buf.chains[buf.k].Space())
  {
    hide Segment;
    hide Flat;
    hide Chain.Ok;
    hide LastWithData;
    hide Rooms;
    buf.ChainAt(j);
    if j > buf.k {
      EmptyAfter(buf.datas, buf.k, j);
      buf.ChainsDiffer(j, buf.k);
    }
    if c.off != 0 {
      // The source's assertion: only the first of these chains has data.
      assert j == buf.k;
    } else {
      RealignEmpty(buf, c, j, from, rooms);
    }
    room := c.Space();
  }

  /** Realigns the empty chain j. */
  method RealignEmpty(buf: Evbuffer, c: Chain, ghost j: nat, ghost from: nat, ghost rooms: seq<nat>)
    requires buf.Wf() && c == Nth(buf.chains, j) && c.Ok() && c.off == 0 && NoEmptyRefs(buf)
    requires buf.k <= from && from + |rooms| <= j && Rooms(buf.chains, from, rooms, 0, buf.cells)
    modifies c`misalign
    ensures buf.Wf() && c.Ok() && c.Space() > 0
    ensures Rooms(buf.chains, from, rooms, 0, buf.cells)
  {
    hide Segment;
    hide Flat;
    hide Chain.Ok;
    hide LastWithData;
    hide Rooms;
    buf.ChainAt(j);
    assert forall i | from <= i < j :: buf.chains[i] in buf.cells - {c} by {
      buf.Members();
      forall i | from <= i < j ensures buf.chains[i] != c {
        buf.ChainsDiffer(i, j);
      }
    }
    RoomsIn(buf.chains, from, rooms, 0, buf.cells, buf.cells - {c});
    EmptyAtStartIn(c, j, buf.chains, buf.datas, buf.cells, null);
    RoomsIn(buf.chains, from, rooms, 0, buf.cells - {c}, buf.cells);
  }

  const MAX_READ := 4096
  const READ_VECS := 4

  /** The pieces up to i have data, and none from i on has, but for piece k. */
  ghost predicate FilledTo(datas: seq<seq<Byte>>, k: nat, i: nat)
  {
    && (forall j | 0 <= j < i && j < |datas| :: datas[j] != [])
    && (forall j | i <= j < |datas| && j > k :: datas[j] == [])
  }

  lemma FillOne(datas: seq<seq<Byte>>, k: nat, i: nat, x: seq<Byte>)
    requires FilledTo(datas, k, i) && k <= i < |datas| && x != []
    ensures FilledTo(datas[i := x], k, i + 1) && LastWithData(datas[i := x], i)
  {
  }

  lemma FilledAtStart(datas: seq<seq<Byte>>, k: nat, from: nat)
    requires LastWithData(datas, k) && k < |datas| && (from == k || (from == k + 1 && datas[k] != []))
    ensures FilledTo(datas, k, from)
  {
  }

  /** The link to the first chain with room. */
  method FirstLink(buf: Evbuffer) returns (prev: Chain?, first: Chain?)
    requires buf.Valid() && buf.chains != []
    ensures var from := (buf.ChainAt(buf.k); FirstWithRoom(buf));
      prev == Nth(buf.chains, from - 1) && first == Nth(buf.chains, from)
  {
    hide Segment;
    hide Flat;
    hide Chain.Ok;
    hide LastWithData;
    buf.ChainAt(buf.k);
    if buf.k > 0 {
      buf.ChainAt(buf.k - 1);
    }
    prev := buf.lwd;
    first := if prev == null then buf.first else prev.next;
    if first.Space() == 0 {
      prev, first := first, first.next;
    }
  }

  /** The lengths of the vectors that _evbuffer_read_setup_vecs hands to readv, over
      the chains from the first with room on: they cover exactly howmuch bytes. */
  method SetupVecs(buf: Evbuffer, howmuch: nat, n: nat, ghost rooms: seq<nat>)
    returns (vecs: seq<nat>, prev: Chain?, first: Chain?)
    requires buf.Valid() && buf.chains != [] && HasRoom(buf, rooms, howmuch, n)
    ensures var from := (buf.ChainAt(buf.k); FirstWithRoom(buf));
      prev == Nth(buf.chains, from - 1) && first == Nth(buf.chains, from)
    ensures |vecs| <= |rooms| && Sum(vecs) == howmuch
    ensures forall i | 0 <= i < |vecs| :: 0 < vecs[i] <= rooms[i] && (i + 1 < |vecs| ==> vecs[i] == rooms[i])
  {
    hide Segment;
    hide Flat;
    hide Chain.Ok;
    hide LastWithData;
    hide Rooms;
    prev, first := FirstLink(buf);
    buf.ChainAt(buf.k);
    ghost var from := FirstWithRoom(buf);
    var soFar, chain := 0, first;
    vecs := [];
    assert rooms[..0] == [] && rooms[..|rooms|] == rooms;
    while |vecs| < n && soFar < howmuch
      invariant |vecs| <= |rooms| && soFar == Sum(vecs) <= howmuch
      invariant soFar < howmuch ==> vecs == rooms[..|vecs|] && chain == Nth(buf.chains, from + |vecs|)
      invariant forall i | 0 <= i < |vecs| :: 0 < vecs[i] <= rooms[i] && (i + 1 < |vecs| ==> vecs[i] == rooms[i])
      decreases |rooms| - |vecs|
    {
      ghost var i := |vecs|;
      if i == |rooms| {
        assert false;
      }
      RoomsAt(buf.chains, from, rooms, 0, buf.cells, i);
      buf.ChainAt(from + i);
      var avail := chain.Space();
      if avail > howmuch - soFar {
        avail := howmuch - soFar;
      }
      assert avail == rooms[i] ==> vecs + [avail] == rooms[..i + 1];
      SumAdd(vecs, avail);
      vecs, soFar, chain := vecs + [avail], soFar + avail, chain.next;
    }
  }

  /** Puts bytes that readv wrote after the live bytes of chain i into account. */
  method FillChain(buf: Evbuffer, c: Chain, bytes: seq<Byte>, ghost k: nat, ghost from: nat, ghost rooms: seq<nat>,
        ghost s: nat)
    requires buf.Wf() && c == Nth(buf.chains, from + s) && FilledTo(buf.datas, k, from + s) && k <= from
    requires s < |rooms| && Rooms(buf.chains, from, rooms, s, buf.cells) && 0 < |bytes| <= rooms[s]
    modifies buf`datas, buf`totalLen, c`memory, c`off, c`data
    ensures buf.Wf() && FilledTo(buf.datas, k, from + s + 1) && LastWithData(buf.datas, from + s)
    ensures buf.Contents() == old(buf.Contents()) + bytes
    ensures Rooms(buf.chains, from, rooms, s + 1, buf.cells)
    ensures c.next == Nth(buf.chains, from + s + 1) && (old(NoEmptyRefs(buf)) ==> NoEmptyRefs(buf))
  {
    hide Segment;
    hide Flat;
    hide Chain.Ok;
    hide LastWithData;
    hide Rooms;
    ghost var i := from + s;
    buf.ChainAt(i);
    RoomsAt(buf.chains, from, rooms, s, buf.cells, s);
    FillOne(buf.datas, k, i, buf.datas[i] + bytes);
    assert forall j | i < j < |buf.chains| :: buf.chains[j] in buf.cells - {c} by {
      buf.Members();
      forall j | i < j < |buf.chains| ensures buf.chains[j] != c {
        buf.ChainsDiffer(i, j);
      }
    }
    RoomsSkip(buf.chains, from, rooms, s, s + 1, buf.cells);
    RoomsFit(buf.chains, from, rooms, s + 1, buf.cells);
    RoomsIn(buf.chains, from, rooms, s + 1, buf.cells, buf.cells - {c});
    buf.AppendAt(c, i, bytes);
    RoomsIn(buf.chains, from, rooms, s + 1, buf.cells - {c}, buf.cells);
  }

  /** The sum of the first i lengths. */
  ghost function SumTo(vecs: seq<nat>, i: nat): nat
    requires i <= |vecs|
  {
    if i == 0 then 0 else SumTo(vecs, i - 1) + vecs[i - 1]
  }

  lemma {:induction false} SumToAll(vecs: seq<nat>, i: nat)
    requires i <= |vecs|
    ensures SumTo(vecs, i) == Sum(vecs[..i])
  {
    if i > 0 {
      SumToAll(vecs, i - 1);
      assert vecs[..i][..i - 1] == vecs[..i - 1];
    }
  }

  lemma SumTo0(vecs: seq<nat>)
    requires SumTo(vecs, |vecs|) > 0
    ensures vecs != []
  {
  }

  /** The loop that spreads the bytes received over the chains. */
  method Distribute(buf: Evbuffer, prev: Chain?, first: Chain, input: seq<Byte>, ghost vecs: seq<nat>, ghost from: nat,
        ghost rooms: seq<nat>)
    requires buf.Valid() && NoEmptyRefs(buf)
    requires buf.k < |buf.chains| && buf.k <= from <= buf.k + 1 && FilledTo(buf.datas, buf.k, from)
    requires prev == Nth(buf.chains, from - 1) && first == Nth(buf.chains, from)
    requires Rooms(buf.chains, from, rooms, 0, buf.cells)
    requires input != [] && |input| <= SumTo(vecs, |vecs|) && |vecs| <= |rooms|
    requires forall i | 0 <= i < |vecs| :: 0 < vecs[i] <= rooms[i] && (i + 1 < |vecs| ==> vecs[i] == rooms[i])
    modifies buf, buf.cells
    ensures buf.Valid() && NoEmptyRefs(buf) && buf.Contents() == old(buf.Contents()) + input
    ensures buf.chains == old(buf.chains) && buf.cells == old(buf.cells)
    ensures buf.freezeStart == old(buf.freezeStart) && buf.freezeEnd == old(buf.freezeEnd)
  {
    hide Segment;
    hide Flat;
    hide Chain.Ok;
    hide LastWithData;
    hide Rooms;
    hide FilledTo;
    hide NoEmptyRefs;
    ghost var k, s := buf.k, 0;
    var link, chain, rest := prev, first, input;
    RoomsAt(buf.chains, from, rooms, 0, buf.cells, 0);
    while chain.Space() < |rest|
      invariant buf.Wf() && buf.k == k && FilledTo(buf.datas, k, from + s) && NoEmptyRefs(buf)
      invariant s < |vecs| && |rest| <= SumTo(vecs, |vecs|) - SumTo(vecs, s)
      invariant link == Nth(buf.chains, from + s - 1) && chain == Nth(buf.chains, from + s) && chain in buf.cells
      invariant chain.Ok() && chain.Space() == rooms[s]
      invariant Rooms(buf.chains, from, rooms, s, buf.cells)
      invariant rest != [] && buf.Contents() + rest == old(buf.Contents()) + input
      modifies buf`datas, buf`totalLen, buf.cells`memory, buf.cells`off, buf.cells`data
      decreases |vecs| - s
    {
      var space := chain.Space();
      // readv filled this vector, which was all the room of the chain.
      assert space == vecs[s];
      AppendInTwo(buf.Contents(), rest, space);
      FillChain(buf, chain, rest[..space], k, from, rooms, s);
      link, chain, rest, s := chain, chain.next, rest[space..], s + 1;
      RoomsAt(buf.chains, from, rooms, s, buf.cells, s);
    }
    FillLast(buf, link, chain, rest, k, from, rooms, s);
  }

  /** Fills the last chain that bytes were received into, which becomes the one that
      last_with_datap leads to. */
  method FillLast(buf: Evbuffer, link: Chain?, c: Chain, bytes: seq<Byte>, ghost k: nat, ghost from: nat,
        ghost rooms: seq<nat>, ghost s: nat)
    requires buf.Wf() && c == Nth(buf.chains, from + s) && link == Nth(buf.chains, from + s - 1)
    requires FilledTo(buf.datas, k, from + s) && k <= from && NoEmptyRefs(buf)
    requires s < |rooms| && Rooms(buf.chains, from, rooms, s, buf.cells) && 0 < |bytes| <= rooms[s]
    modifies buf`datas, buf`totalLen, buf`lwd, buf`k, c`memory, c`off, c`data
    ensures buf.Valid() && NoEmptyRefs(buf) && buf.Contents() == old(buf.Contents()) + bytes
  {
    hide Segment;
    hide Flat;
    hide Chain.Ok;
    hide LastWithData;
    hide Rooms;
    hide FilledTo;
    FillChain(buf, c, bytes, k, from, rooms, s);
    buf.Account(link, from + s, buf.totalLen);
  }

  /** evbuffer_read: readable is what the socket says it holds, and received is what
      readv then delivers into the vectors; failed is its error return. */
  method Read(buf: Evbuffer, howmuch: int, readable: int, received: seq<Byte>, failed: bool) returns (r: int)
    requires buf.Valid() && EmptyRefLast(buf)
    requires |received| <= ToRead(howmuch, readable)
    modifies buf, buf.cells
    ensures buf.Valid() && EmptyRefLast(buf)
    ensures buf.freezeStart == old(buf.freezeStart) && buf.freezeEnd == old(buf.freezeEnd)
    ensures forall c | c in buf.cells && c !in old(buf.cells) :: fresh(c) && !c.immutable
    ensures r == if buf.freezeEnd || failed then -1 else |received|
    ensures Within(r, howmuch, readable) || r == -1
    ensures buf.Contents() == if r == -1 then old(buf.Contents()) else old(buf.Contents()) + received
  {
    hide Segment;
    hide Flat;
    hide Chain.Ok;
    hide LastWithData;
    hide Rooms;
    if buf.freezeEnd {
      return -1;
    }
    var n := ToRead(howmuch, readable);
    ghost var rooms := ExpandFast(buf, n, READ_VECS);
    var vecs, prev, first := SetupVecs(buf, n, READ_VECS, rooms);
    if failed {
      return -1;
    }
    r := |received|;
    if r == 0 {
      return;
    }
    buf.ChainAt(buf.k);
    ghost var from := FirstWithRoom(buf);
    FilledAtStart(buf.datas, buf.k, from);
    SumToAll(vecs, |vecs|);
    assert vecs[..|vecs|] == vecs;
    SumTo0(vecs);
    RoomsAt(buf.chains, from, rooms, 0, buf.cells, 0);
    Distribute(buf, prev, first, received, vecs, from, rooms);
  }

  /** A bound that counts: how much is wanted, unless that is negative, and how much the socket
      holds, unless it does not say. */
  predicate Within(n: int, howmuch: int, readable: int)
  {
    n <= MAX_READ && (howmuch >= 0 ==> n <= howmuch) && (0 < readable <= MAX_READ ==> n <= readable)
  }

  /** How many bytes evbuffer_read asks for: as many as are within all bounds, and no more. */
  function ToRead(howmuch: int, readable: int): (n: nat)
    ensures forall m: int :: m <= n <==> Within(m, howmuch, readable)
  {
    var n := if readable <= 0 || readable > MAX_READ then MAX_READ else readable;
    if howmuch < 0 || howmuch > n then n else howmuch
  }
}
