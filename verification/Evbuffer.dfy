/** The byte queue of deps/libevent/buffer.c: a list of partly filled chains. */
module Evbuffers {
  import opened Bytes
  import opened Chains
  import opened Pieces

  /** The answer of an operation that an assertion has stopped. */
  const FIRED := -2

  class Evbuffer {
    var first: Chain?
    var last: Chain?
    /** last_with_datap: it points at lwd.next, or at this.first when lwd is null. */
    var lwd: Chain?
    var totalLen: nat
    var freezeStart: bool
    var freezeEnd: bool

    ghost var chains: seq<Chain>
    ghost var datas: seq<seq<Byte>>
    /** The index of the chain that last_with_datap leads to. */
    ghost var k: nat
    /** The chains the buffer may write. */
    ghost var cells: set<Chain>

    /** The abstract value: the flat byte sequence. */
    ghost function Contents(): seq<Byte>
      reads this`datas
    {
      Flat(datas)
    }

    ghost predicate Linked()
      reads this`chains, this`datas, this`cells, cells
    {
      Segment(chains, datas, cells, null)
    }

    lemma Members()
      requires Linked()
      ensures |datas| == |chains| && forall i | 0 <= i < |chains| :: chains[i] in cells
    {
    }

    lemma ChainAt(i: nat)
      requires Linked() && i < |chains|
      ensures |datas| == |chains| && chains[i] in cells && chains[i].Ok()
      ensures chains[i].data == datas[i] && chains[i].off == |datas[i]| && chains[i].next == Nth(chains, i + 1)
    {
    }

    lemma ChainsDiffer(i: nat, j: nat)
      requires Linked() && i < |chains| && j < |chains| && i != j
      ensures chains[i] != chains[j]
    {
    }

    lemma SameChain(i: nat, j: nat)
      requires Linked() && i < |chains| && j < |chains| && chains[i] == chains[j]
      ensures i == j
    {
    }

    lemma LastIn()
      requires Wf()
      ensures last != null ==> last in cells && last.Ok()
    {
    }

    lemma LastNext()
      requires Wf() && chains != []
      ensures last != null && last in cells && last.next == null && k < |chains|
      ensures lwd == null <==> k == 0
    {
      ChainAt(|chains| - 1);
    }

    lemma FirstIn()
      requires Wf()
      ensures first != null ==> first in cells
    {
    }

    /** The ends of the list, last_with_datap as the link that leads to chain k, and
        the sum of the chain lengths. */
    ghost predicate Ends()
      reads `first, `last, `lwd, `totalLen, `chains, `datas, `k
    {
      && first == Nth(chains, 0)
      && last == Nth(chains, |chains| - 1)
      && lwd == Nth(chains, k - 1)
      && (k < |chains| || k == 0)
      && totalLen == |Contents()|
    }

    ghost predicate Wf()
      reads `first, `last, `lwd, `totalLen, `chains, `datas, `k, `cells, cells
    {
      Linked() && Ends()
    }

    ghost predicate LwdOk()
      reads this`datas, this`k
    {
      LastWithData(datas, k)
    }

    ghost predicate Valid()
      reads `first, `last, `lwd, `totalLen, `chains, `datas, `k, `cells, cells
    {
      Wf() && LwdOk()
    }

    /** No empty chain after the one last_with_datap leads to. */
    ghost predicate TailClean()
      reads this`chains, this`k
    {
      |chains| <= k + 1
    }

    constructor ()
      ensures Valid() && TailClean() && Contents() == [] && chains == []
      ensures cells == {} && !freezeStart && !freezeEnd
    {
      first, last, lwd, totalLen := null, null, null, 0;
      freezeStart, freezeEnd := false, false;
      chains, datas, k, cells := [], [], 0, {};
    }

    /** Stores a chain through a link, cutting off what followed it: prev is null
        for the link this.first. */
    method StoreTail(prev: Chain?, chain: Chain, ghost v: nat)
      requires Linked() && v <= |chains| && prev == Nth(chains, v - 1)
      requires chain.next == null && chain.Ok() && chain !in cells
      modifies this`first, this`last, this`chains, this`datas, this`cells, cells`next
      ensures Linked() && last == chain && first == if prev == null then chain else old(first)
      ensures cells == old(cells) + {chain}
      ensures chains == old(chains)[..v] + [chain]
      ensures |old(chains)| == |old(datas)| && datas == old(datas)[..v] + [chain.data]
    {
      hide Segment;
      hide Chain.Ok;
      Members();
      SegmentSplit(chains, datas, cells, null, v);
      if prev == null {
        first := chain;
        SegmentNil(cells, chain);
      } else {
        assert chains[..v][v - 1] == prev;
        SegmentNext(chains[..v], datas[..v], cells, if v < |chains| then chains[v] else null);
        SetEnd(prev, chain, chains[..v], datas[..v], cells);
      }
      SegmentWiden(chains[..v], datas[..v], cells, {chain}, chain);
      SegmentOne(chain, cells + {chain});
      SegmentJoin(chains[..v], datas[..v], [chain], [chain.data], cells + {chain}, null);
      last, chains, datas, cells := chain, chains[..v] + [chain], datas[..v] + [chain.data], cells + {chain};
    }

    /** Sets last_with_datap to the link out of prev, and the length. */
    method Account(prev: Chain?, ghost i: nat, len: nat)
      requires Linked()
      requires first == Nth(chains, 0) && last == Nth(chains, |chains| - 1)
      requires len == |Contents()| && (i < |chains| || i == 0) && prev == Nth(chains, i - 1)
      modifies this`lwd, this`k, this`totalLen
      ensures Wf() && k == i
    {
      hide Linked;
      lwd, k, totalLen := prev, i, len;
    }

    /** Finds the link to the first empty chain from last_with_datap on: prev holds
        the link (null: this.first) and c is what it leads to. */
    method FindVictim() returns (prev: Chain?, c: Chain?, ghost v: nat)
      requires Wf()
      ensures |datas| == |chains| && k <= v == FirstEmpty(datas, k) <= |chains|
      ensures prev == Nth(chains, v - 1) && c == Nth(chains, v)
    {
      hide Segment;
      hide Chain.Ok;
      hide Flat;
      Members();
      prev := lwd;
      if k > 0 {
        ChainAt(k - 1);
      }
      c, v := if prev == null then first else prev.next, k;
      if c != null {
        ChainAt(k);
      }
      while c != null && c.off != 0
        invariant k <= v <= |chains| && FirstEmpty(datas, v) == FirstEmpty(datas, k)
        invariant prev == Nth(chains, v - 1) && c == Nth(chains, v) && (c != null ==> c.off == |datas[v]|)
        decreases |chains| - v
      {
        ChainAt(v);
        prev, c, v := c, c.next, v + 1;
        if c != null {
          ChainAt(v);
        }
      }
    }

    /** evbuffer_chains_all_empty, from chain v on. */
    method AllEmpty(start: Chain, ghost v: nat) returns (r: bool)
      requires Wf() && start == Nth(chains, v)
      ensures r <==> EmptyFrom(datas, v)
    {
      hide Segment;
      hide Chain.Ok;
      hide Flat;
      Members();
      var c: Chain? := start;
      ghost var i := v;
      while c != null
        invariant v <= i <= |chains| && c == Nth(chains, i) && forall j | v <= j < i :: datas[j] == []
        decreases |chains| - i
      {
        ChainAt(i);
        if c.off != 0 {
          return false;
        }
        c, i := c.next, i + 1;
      }
      r := true;
    }

    /** evbuffer_chain_insert: appends a chain in place of the trailing empty ones.
        last_with_datap moves only when nothing is replaced.  The assertion that all the
        chains to be replaced are empty fires exactly if one is not. */
    method ChainInsert(chain: Chain) returns (fired: bool)
      requires Wf()
      requires chain.next == null && chain.Ok() && chain !in cells
      modifies this`first, this`last, this`lwd, this`totalLen, this`chains, this`datas, this`k
      modifies this`cells, cells`next
      ensures Wf() && |old(datas)| == |old(chains)|
      ensures fired <==> !EmptyFrom(old(datas), FirstEmpty(old(datas), old(k)))
      ensures fired ==>
        cells == old(cells) && chains == old(chains) && datas == old(datas) && k == old(k) && last == old(last)
      ensures var v := FirstEmpty(old(datas), old(k));
        !fired ==>
          && cells == old(cells) + {chain} && Contents() == old(Contents()) + chain.data
          && v <= |old(chains)| && chains == old(chains)[..v] + [chain] && datas == old(datas)[..v] + [chain.data]
          && k == (if v == |old(chains)| && chain.data != [] then v else old(k)) && last == chain
      ensures old(LwdOk()) ==> !fired && FirstEmpty(old(datas), old(k)) == old(Victim(datas, k))
      ensures old(LwdOk()) ==> (LwdOk() <==> (old(TailClean()) || old(Victim(datas, k) == k) || chain.data == []))
      ensures old(LwdOk()) ==> (TailClean() <==> (old(Victim(datas, k) == k) || (old(TailClean()) && chain.data != [])))
    {
      hide Segment;
      hide Chain.Ok;
      hide Flat;
      hide LastWithData;
      hide FirstEmpty;
      chain.Length();
      Members();
      if LwdOk() {
        VictimIs(datas, k);
        InsertKeepsLast(datas, k, chain.data);
      }
      var prev, c;
      ghost var v;
      prev, c, v := FindVictim();
      fired := false;
      if c != null {
        var empty := AllEmpty(c, v);
        fired := !empty;
      }
      if !fired {
        FlatReplaceTail(datas, v, chain.data);
        StoreTail(prev, chain, v);
        if c == null && chain.off > 0 {
          Account(prev, v, totalLen + chain.off);
        } else {
          Account(lwd, k, totalLen + chain.off);
        }
      }
    }

    /** Appends to the live bytes of chain i, in the room after them. */
    method AppendAt(c: Chain, ghost i: nat, bytes: seq<Byte>)
      requires Wf() && c == Nth(chains, i) && c.Ok() && |bytes| <= c.Space()
      modifies this`datas, this`totalLen, c`memory, c`off, c`data
      ensures Wf() && datas == old(datas)[i := old(datas[i]) + bytes]
      ensures (forall j | i < j < |old(datas)| :: old(datas)[j] == []) || (i == k && LwdOk()) ==>
        Contents() == old(Contents()) + bytes
      ensures i == k && old(LwdOk()) ==> LwdOk()
      ensures c.Ok() && c.Space() == old(c.Space()) - |bytes| && c.misalign == old(c.misalign)
    {
      hide Segment;
      hide Chain.Ok;
      hide Flat;
      hide LastWithData;
      Members();
      FlatGrow(datas, i, bytes);
      GrowKeepsLast(datas, k, i, datas[i] + bytes);
      AppendIn(c, bytes, i, chains, datas, cells, null);
      datas, totalLen := datas[i := datas[i] + bytes], totalLen + |bytes|;
    }

    /** Realigns chain i, which moves no byte of the contents. */
    method AlignAt(c: Chain, ghost i: nat)
      requires Wf() && c == Nth(chains, i) && c.Ok() && !c.immutable
      modifies c`memory, c`misalign
      ensures Wf() && c.Ok() && c.misalign == 0
      ensures c.Space() == |c.memory| - c.off && |c.memory| == old(|c.memory|)
    {
      hide Segment;
      hide Chain.Ok;
      AlignIn(c, i, chains, datas, cells, null);
    }

    /** There is room for n bytes at the end of the last chain, perhaps after realignment. */
    ghost predicate Fits(n: nat)
      requires Wf()
      reads `first, `last, `lwd, `totalLen, `chains, `datas, `k, `cells, cells
    {
      LastIn();
      last != null && !last.immutable && (n <= last.Space() || last.ShouldRealign(n))
    }

    /** The room at the end of the last chain. */
    ghost function LastSpace(): nat
      requires Wf()
      reads `first, `last, `lwd, `totalLen, `chains, `datas, `k, `cells, cells
    {
      LastIn();
      if last == null then 0 else last.Space()
    }

    /** Adding n bytes makes an assertion of evbuffer_chain_insert fire: there are several
        empty chains at the end, and the last of them takes some of the bytes. */
    ghost predicate Fires(n: nat)
      requires Wf()
      reads `first, `last, `lwd, `totalLen, `chains, `datas, `k, `cells, cells
    {
      !TailClean() && !Fits(n) && LastSpace() > 0 && Victim(datas, k) < |chains| - 1
    }

    /** Adding n bytes leaves last_with_datap behind. */
    ghost predicate Loses(n: nat)
      requires Wf()
      reads `first, `last, `lwd, `totalLen, `chains, `datas, `k, `cells, cells
    {
      !TailClean() && n > 0 && (Fits(n) || Fires(n) || (LastSpace() == 0 && Victim(datas, k) != k))
    }

    /** evbuffer_add.  When the last chain is an empty one that last_with_datap has not
        reached, the bytes go into it and last_with_datap is left behind, or an assertion
        fires. */
    method Add(bytes: seq<Byte>) returns (r: int)
      requires Valid()
      modifies this, cells
      ensures Wf() && forall c | c in cells && c !in old(cells) :: fresh(c) && !c.immutable
      ensures freezeStart == old(freezeStart) && freezeEnd == old(freezeEnd)
      ensures r == if freezeEnd then -1 else if old(Fires(|bytes|)) then FIRED else 0
      ensures r == FIRED ==> old(LastSpace()) < |bytes| && Contents() == old(Contents()) + bytes[..old(LastSpace())]
      ensures r != FIRED ==> Contents() == if freezeEnd then old(Contents()) else old(Contents()) + bytes
      ensures LwdOk() <==> freezeEnd || !old(Loses(|bytes|))
      ensures old(TailClean()) && (bytes != [] || !old(last != null && last.immutable)) ==> TailClean()
      ensures !freezeEnd && bytes == [] && old(TailClean() && last != null && last.immutable && totalLen > 0) ==>
        !TailClean() && last != null && !last.immutable && last.Space() > 0
      ensures !freezeEnd && old(!TailClean() && Fits(|bytes|)) ==>
        k == old(k) && |old(datas)| > 0 && datas == old(datas)[|old(datas)| - 1 := bytes]
    {
      hide Segment;
      hide Chain.Ok;
      hide Flat;
      if freezeEnd {
        return -1;
      }
      if last == null {
        var capacity := ChainCapacity(|bytes|);
        var chain := new Chain(capacity);
        var _ := ChainInsert(chain);
      }
      r := AddToLast(bytes);
    }

    /** The part of evbuffer_add that has a last chain. */
    method AddToLast(bytes: seq<Byte>) returns (r: int)
      requires Valid() && last != null
      modifies this, cells
      ensures Wf() && forall c | c in cells && c !in old(cells) :: fresh(c) && !c.immutable
      ensures freezeStart == old(freezeStart) && freezeEnd == old(freezeEnd)
      ensures r == if old(Fires(|bytes|)) then FIRED else 0
      ensures r == FIRED ==> old(LastSpace()) < |bytes| && Contents() == old(Contents()) + bytes[..old(LastSpace())]
      ensures r == 0 ==> Contents() == old(Contents()) + bytes
      ensures LwdOk() <==> !old(Loses(|bytes|))
      ensures old(TailClean()) && (bytes != [] || !old(last.immutable)) ==> TailClean()
      ensures old(!TailClean() && Fits(|bytes|)) ==>
        k == old(k) && |old(datas)| > 0 && datas == old(datas)[|old(datas)| - 1 := bytes]
      ensures bytes == [] && old(TailClean() && last.immutable && totalLen > 0) ==>
        !TailClean() && last != null && !last.immutable && last.Space() > 0
    {
      hide Segment;
      hide Flat;
      var chain := last;
      ghost var n := |chains| - 1;
      ChainAt(n);
      r := 0;
      var remain := if chain.immutable then 0 else |chain.memory| - chain.misalign - chain.off;
      LastEmpty();
      if !chain.immutable && remain >= |bytes| {
        AppendAt(chain, n, bytes);
        assert datas[n] == old(datas[n]) + bytes;
        assert old(datas[n]) == [] ==> datas[n] == bytes;
        return;
      }
      if !chain.immutable && chain.ShouldRealign(|bytes|) {
        AlignAt(chain, n);
        AppendAt(chain, n, bytes);
        assert datas[n] == old(datas[n]) + bytes;
        assert old(datas[n]) == [] ==> datas[n] == bytes;
        return;
      }
      assert !Fits(|bytes|) && LastSpace() == remain;
      hide Fits;
      r := AddChain(bytes, remain);
    }

    /** Allocates a chain for size bytes and appends it with some written. */
    method InsertNew(size: nat, bytes: seq<Byte>) returns (fired: bool)
      requires Wf() && |bytes| <= size
      modifies this, cells
      ensures Wf() && (forall c | c in cells && c !in old(cells) :: fresh(c) && !c.immutable)
      ensures freezeStart == old(freezeStart) && freezeEnd == old(freezeEnd) && |old(datas)| == |old(chains)|
      ensures fired <==> !EmptyFrom(old(datas), FirstEmpty(old(datas), old(k)))
      ensures fired ==> chains == old(chains) && datas == old(datas) && k == old(k)
      ensures var v := FirstEmpty(old(datas), old(k));
        !fired ==>
          && Contents() == old(Contents()) + bytes && v <= |old(datas)| && datas == old(datas)[..v] + [bytes]
          && k == if v == |old(datas)| && bytes != [] then v else old(k)
      ensures old(LwdOk()) ==> !fired && (LwdOk() <==> (old(TailClean()) || old(Victim(datas, k) == k) || bytes == []))
      ensures old(LwdOk()) ==> (TailClean() <==> (old(Victim(datas, k) == k) || (old(TailClean()) && bytes != [])))
      ensures !fired ==> last != null && last.Ok() && !last.immutable && (bytes == [] ==> last.Space() > 0)
    {
      hide Linked;
      hide Flat;
      hide Chain.Ok;
      hide LastWithData;
      var chain := NewChain(size, bytes);
      fired := ChainInsert(chain);
    }

    /** Fills the last chain and puts the rest of the bytes in a new one. */
    method AddChain(bytes: seq<Byte>, remain: nat) returns (r: int)
      requires Valid() && last != null && last.Ok() && !Fits(|bytes|) && remain == LastSpace()
      requires remain < |bytes| || (last.immutable && remain == 0)
      modifies this, cells
      ensures Wf() && forall c | c in cells && c !in old(cells) :: fresh(c) && !c.immutable
      ensures freezeStart == old(freezeStart) && freezeEnd == old(freezeEnd)
      ensures r == if old(Fires(|bytes|)) then FIRED else 0
      ensures r == FIRED ==> remain < |bytes| && Contents() == old(Contents()) + bytes[..remain]
      ensures r == 0 ==> Contents() == old(Contents()) + bytes
      ensures LwdOk() <==> !old(Loses(|bytes|))
      ensures old(TailClean()) && (bytes != [] || !old(last.immutable)) ==> TailClean()
      ensures bytes == [] && old(TailClean() && last.immutable && totalLen > 0) ==>
        !TailClean() && last != null && !last.immutable && last.Space() > 0
    {
      hide NextSize;
      hide Linked;
      hide Flat;
      hide LastWithData;
      hide FirstEmpty;
      hide Fits;
      hide Loses;
      hide Fires;
      hide LastSpace;
      hide Victim;
      LastIn();
      VictimPast();
      LosesIs(|bytes|);
      if !TailClean() && remain > 0 {
        UncleanAppend(datas, k, bytes[..remain], bytes[remain..]);
      }
      var toAlloc := NextSize(|last.memory|, |bytes|);
      GrowLast(bytes[..remain]);
      AppendInTwo(old(Contents()), bytes, remain);
      assert datas[..|datas|] == datas;
      var fired := InsertNew(toAlloc, bytes[remain..]);
      r := if fired then FIRED else 0;
    }

    lemma LosesIs(n: nat)
      requires Valid() && last != null && !Fits(n)
      ensures Fires(n) <==> !TailClean() && LastSpace() > 0 && Victim(datas, k) < |chains| - 1
      ensures Loses(n) <==> (&& !TailClean() && n > 0
                             && if LastSpace() > 0 then Victim(datas, k) < |chains| - 1 else Victim(datas, k) != k)
      ensures |datas| == |chains| > 0
    {
      hide LastWithData;
      Members();
    }

    lemma VictimPast()
      requires Valid()
      ensures totalLen > 0 ==> Victim(datas, k) != k
    {
      hide LastWithData;
      if totalLen > 0 {
        HasChains();
      }
    }

    /** Puts bytes at the end of the last chain. */
    method GrowLast(bytes: seq<Byte>)
      requires Valid() && last != null && last.Ok() && |bytes| <= LastSpace()
      modifies this`datas, this`totalLen, last`memory, last`off, last`data
      ensures Wf() && Contents() == old(Contents()) + bytes && |old(datas)| > 0
      ensures bytes == [] ==> datas == old(datas)
      ensures old(TailClean()) ==> LwdOk()
      ensures !old(TailClean()) ==> datas == old(datas)[|old(datas)| - 1 := bytes]
    {
      hide Chain.Ok;
      hide Segment;
      hide Flat;
      hide LastWithData;
      ghost var n := |chains| - 1;
      ChainAt(n);
      LastEmpty();
      AppendNothing(datas, n);
      AppendAt(last, n, bytes);
      assert !old(TailClean()) ==> old(datas[n]) + bytes == bytes;
    }

    /** The last chain is empty when last_with_datap has not reached it. */
    lemma LastEmpty()
      requires Valid() && chains != []
      ensures |datas| == |chains| && (!TailClean() ==> datas[|datas| - 1] == [])
    {
      Members();
    }

    /** evbuffer_add_reference: the bytes stay in the user's memory. */
    method AddReference(bytes: seq<Byte>) returns (r: int)
      requires Valid()
      modifies this, cells
      ensures Wf() && fresh(cells - old(cells))
      ensures freezeStart == old(freezeStart) && freezeEnd == old(freezeEnd)
      ensures r == if freezeEnd then -1 else 0
      ensures Contents() == if freezeEnd then old(Contents()) else old(Contents()) + bytes
      ensures LwdOk() <==> (freezeEnd || old(TailClean()) || old(Victim(datas, k) == k) || bytes == [])
      ensures old(TailClean()) && bytes != [] ==> TailClean()
      ensures r == 0 ==> last != null && last.immutable && (old(first) == null ==> first == last)
      ensures r == 0 ==> var v := Victim(old(datas), old(k));
        && v <= |old(chains)| == |old(datas)|
        && chains == old(chains)[..v] + [last] && datas == old(datas)[..v] + [bytes]
    {
      hide Linked;
      hide Flat;
      hide Chain.Ok;
      hide LastWithData;
      if freezeEnd {
        return -1;
      }
      var chain := new Chain.Reference(bytes);
      var _ := ChainInsert(chain);
      r := 0;
    }

    /** Fills the misalignment of the first chain from its end. */
    method PutFrontFirst(bytes: seq<Byte>)
      requires Wf() && first != null && first.Ok() && !first.immutable && |bytes| <= first.misalign
      modifies this`datas, this`totalLen, first`memory, first`off, first`misalign, first`data
      ensures Wf() && |old(datas)| > 0 && datas == old(datas)[0 := bytes + old(datas[0])]
      ensures Contents() == bytes + old(Contents())
      ensures old(LwdOk()) ==> LwdOk()
      ensures first.misalign == old(first.misalign) - |bytes| && first.Ok()
    {
      hide Segment;
      hide Chain.Ok;
      hide Flat;
      hide LastWithData;
      Members();
      FlatGrowFront(datas, bytes);
      GrowKeepsLast(datas, k, 0, bytes + datas[0]);
      PutFrontIn(first, bytes, chains, datas, cells, null);
      datas, totalLen := datas[0 := bytes + datas[0]], totalLen + |bytes|;
    }

    /** Puts a chain before the others. */
    method PushFirst(tmp: Chain)
      requires Wf() && chains != [] && tmp.Ok() && tmp !in cells
      modifies this, tmp`next
      ensures Wf() && cells == old(cells) + {tmp}
      ensures freezeStart == old(freezeStart) && freezeEnd == old(freezeEnd)
      ensures datas == [tmp.data] + old(datas) && chains == [tmp] + old(chains)
      ensures k == old(k) + 1 && Contents() == tmp.data + old(Contents())
    {
      hide Flat;
      hide Chain.Ok;
      hide Segment;
      FlatConcat([tmp.data], datas);
      FlatOne(tmp.data);
      tmp.Length();
      Members();
      tmp.next := first;
      SegmentPush(tmp, chains, datas, cells, null);
      if lwd == null {
        lwd := tmp;
      }
      first, totalLen := tmp, totalLen + tmp.off;
      chains, datas, cells, k := [tmp] + chains, [tmp.data] + datas, cells + {tmp}, k + 1;
    }

    /** evbuffer_prepend.  last_with_datap goes wrong exactly when the first chain is
        immutable and no bytes are put before it, or it holds none itself. */
    method Prepend(bytes: seq<Byte>) returns (r: int)
      requires Valid()
      modifies this, cells
      ensures Wf() && forall c | c in cells && c !in old(cells) :: fresh(c) && !c.immutable
      ensures freezeStart == old(freezeStart) && freezeEnd == old(freezeEnd)
      ensures r == if freezeStart then -1 else 0
      ensures Contents() == if freezeStart then old(Contents()) else bytes + old(Contents())
      ensures LwdOk() <==>
        (freezeStart || !old(first != null && first.immutable) || (bytes != [] && old(datas[0]) != []))
      ensures old(TailClean()) ==> TailClean()
    {
      hide Segment;
      hide Chain.Ok;
      hide Flat;
      if freezeStart {
        return -1;
      }
      if first == null {
        var capacity := ChainCapacity(|bytes|);
        var chain := new Chain(capacity);
        var _ := ChainInsert(chain);
      }
      r := 0;
      ChainAt(0);
      if first.immutable {
        PrependChain(bytes);
      } else {
        PrependToFirst(bytes);
      }
    }

    /** The part of evbuffer_prepend that may write to the first chain. */
    method PrependToFirst(bytes: seq<Byte>)
      requires Valid() && first != null && first.Ok() && !first.immutable
      modifies this, cells
      ensures Valid() && forall c | c in cells && c !in old(cells) :: fresh(c) && !c.immutable
      ensures freezeStart == old(freezeStart) && freezeEnd == old(freezeEnd)
      ensures Contents() == bytes + old(Contents())
      ensures old(TailClean()) ==> TailClean()
    {
      hide Segment;
      hide Flat;
      var chain := first;
      ChainAt(0);
      if chain.off == 0 {
        EmptyAtEndIn(chain, 0, chains, datas, cells, null);
      }
      assert chain.misalign > 0 || datas[0] != [];
      if chain.misalign >= |bytes| {
        PutFrontFirst(bytes);
      } else {
        var n := |bytes| - chain.misalign;
        assert bytes[..n] + (bytes[n..] + Contents()) == bytes + Contents() by {
          assert bytes == bytes[..n] + bytes[n..];
        }
        if chain.misalign > 0 {
          PutFrontFirst(bytes[n..]);
        }
        PrependChain(bytes[..n]);
      }
    }

    /** Puts bytes in a new chain before the others. */
    method PrependChain(bytes: seq<Byte>)
      requires Valid() && chains != []
      modifies this, cells
      ensures Wf() && forall c | c in cells && c !in old(cells) :: fresh(c) && !c.immutable
      ensures freezeStart == old(freezeStart) && freezeEnd == old(freezeEnd)
      ensures Contents() == bytes + old(Contents())
      ensures |old(datas)| > 0 && (LwdOk() <==> (bytes != [] && old(datas[0]) != []))
      ensures old(TailClean()) ==> TailClean()
    {
      hide Segment;
      hide Flat;
      hide Chain.Ok;
      hide LastWithData;
      Members();
      PushKeepsLast(datas, k, bytes);
      var tmp := NewChainAtEnd(bytes);
      PushFirst(tmp);
    }

    /** Leaves the buffer without chains (ZERO_CHAIN). */
    method ZeroChains()
      modifies this
      ensures Valid() && TailClean() && Contents() == [] && chains == [] && cells == {}
      ensures freezeStart == old(freezeStart) && freezeEnd == old(freezeEnd)
    {
      first, last, lwd, totalLen := null, null, null, 0;
      chains, datas, k, cells := [], [], 0, {};
    }

    /** Drops the first n bytes of the first chain. */
    method TrimFirst(c: Chain, n: nat)
      requires Linked() && c == first == Nth(chains, 0) && last == Nth(chains, |chains| - 1)
      requires lwd == Nth(chains, k - 1) && (k < |chains| || k == 0)
      requires c.Ok() && n <= c.off && totalLen == |Contents()| - n
      modifies this`datas, c`misalign, c`off, c`data
      ensures Wf() && Contents() == old(Contents())[n..]
      ensures |old(datas)| > 0 && n <= |old(datas[0])| && datas == old(datas)[0 := old(datas[0])[n..]]
    {
      hide Segment;
      hide Chain.Ok;
      hide Flat;
      ChainAt(0);
      FlatTrim(datas, n);
      TrimIn(c, n, chains, datas, cells, null);
      datas := datas[0 := datas[0][n..]];
    }

    /** Makes chain i the first, dropping the ones before it. */
    method DropTo(c: Chain, ghost i: nat)
      requires Linked() && i <= k < |chains| && c == chains[i] && last == Nth(chains, |chains| - 1)
      requires lwd == if i == k then null else Nth(chains, k - 1)
      modifies this`first, this`chains, this`datas, this`k
      ensures Linked() && first == c == Nth(chains, 0) && last == Nth(chains, |chains| - 1)
      ensures lwd == Nth(chains, k - 1) && k < |chains|
      ensures i <= |old(datas)| && chains == old(chains)[i..] && datas == old(datas)[i..] && k == old(k) - i
    {
      hide Segment;
      Members();
      SegmentSplit(chains, datas, cells, null, i);
      first, chains, datas, k := c, chains[i..], datas[i..], k - i;
    }

    /** evbuffer_drain. */
    method Drain(len: nat) returns (r: int)
      requires Valid()
      modifies this, cells
      ensures Valid() && cells <= old(cells)
      ensures freezeStart == old(freezeStart) && freezeEnd == old(freezeEnd)
      ensures r == if freezeStart && old(totalLen) > 0 then -1 else 0
      ensures Contents() ==
        if r == -1 then old(Contents()) else if len >= old(totalLen) then [] else old(Contents())[len..]
      ensures old(TailClean()) ==> TailClean()
      ensures totalLen == 0 && first != null ==> old(totalLen) == 0 && first == old(first)
    {
      hide Segment;
      hide Flat;
      hide LastWithData;
      r := 0;
      if totalLen == 0 {
        return;
      }
      if freezeStart {
        return -1;
      }
      if len >= totalLen {
        ZeroChains();
      } else {
        DrainSome(len);
      }
    }

    /** The part of evbuffer_drain that leaves some bytes. */
    method DrainSome(len: nat)
      requires Valid() && len < totalLen
      modifies this, cells
      ensures Valid() && cells == old(cells)
      ensures freezeStart == old(freezeStart) && freezeEnd == old(freezeEnd)
      ensures Contents() == old(Contents())[len..]
      ensures old(TailClean()) ==> TailClean()
    {
      hide Segment;
      hide Flat;
      hide LastWithData;
      hide Chain.Ok;
      Members();
      ghost var all := datas;
      totalLen := totalLen - len;
      var chain, previous, remaining, i := SkipChains(len);
      FlatDropPrefix(all, i, len);
      SuffixKeepsLast(all, k, i);
      DropTo(chain, i);
      ChainAt(0);
      TrimFirst(chain, remaining);
      GrowKeepsLast(all[i..], k, 0, all[i][remaining..]);
    }

    /** Walks over the chains that a drain empties, keeping last_with_datap off them. */
    method SkipChains(len: nat) returns (chain: Chain, previous: Chain, remaining: nat, ghost i: nat)
      requires Linked() && LwdOk() && len < |Contents()| && (k < |chains| || k == 0)
      requires first == Nth(chains, 0) && lwd == Nth(chains, k - 1)
      modifies this`lwd
      ensures |datas| == |chains| && i <= k < |chains| && chain == chains[i] && Linked()
      ensures previous == if i == 0 then chain else chains[i - 1]
      ensures |Flat(datas[..i])| + remaining == len && remaining < |datas[i]|
      ensures lwd == if i == k then null else Nth(chains, k - 1)
    {
      hide Segment;
      hide Flat;
      hide LastWithData;
      hide Chain.Ok;
      Members();
      HasData(datas, k);
      FlatNothing();
      ChainAt(0);
      chain, previous, remaining, i := first, first, len, 0;
      while remaining >= chain.off
        invariant Linked() && i <= k && chain == chains[i] && chain.off == |datas[i]|
        invariant previous == if i == 0 then chain else chains[i - 1]
        invariant |Flat(datas[..i])| + remaining == len
        invariant lwd == if i == k then null else Nth(chains, k - 1)
        decreases |chains| - i
      {
        FlatTake(datas, i);
        BeforeLast(datas, k, i + 1);
        ChainAt(i);
        ChainAt(i + 1);
        ChainAt(k - 1);
        ChainsDiffer(i, k);
        remaining := remaining - chain.off;
        // The chain with the last data stays: the first of the source's two resets never runs.
        assert chain != if lwd == null then first else lwd.next;
        if i != k - 1 {
          ChainsDiffer(i, k - 1);
        }
        if chain == lwd {
          lwd := null;
        }
        previous, chain := chain, chain.next;
        i := i + 1;
      }
    }

    /** evbuffer_copyout. */
    method Copyout(datlen: nat) returns (r: int, out: seq<Byte>)
      requires Valid()
      ensures var n := if datlen >= totalLen then totalLen else datlen;
        if n > 0 && freezeStart then r == -1 && out == [] else r == n && out == Contents()[..n]
    {
      hide Segment;
      hide Flat;
      hide LastWithData;
      hide Chain.Ok;
      var n := if datlen >= totalLen then totalLen else datlen;
      if n == 0 {
        return 0, [];
      }
      if freezeStart {
        return -1, [];
      }
      out := CopyPrefix(n);
      r := n;
    }

    /** The first n bytes, gathered chain by chain. */
    method CopyPrefix(n: nat) returns (out: seq<Byte>)
      requires Wf() && n <= totalLen
      ensures out == Contents()[..n]
    {
      hide Segment;
      hide Flat;
      hide Chain.Ok;
      Members();
      FlatNothing();
      out := [];
      var chain, left := first, n;
      ghost var i := 0;
      FlatPrefix(datas, 0);
      while left > 0 && left >= chain.off
        invariant i <= |chains| && chain == Nth(chains, i)
        invariant out == Flat(datas[..i]) && out <= Contents() && |out| + left == n <= |Contents()|
        invariant left >= 0 && (left > 0 ==> i < |chains|)
        decreases |chains| - i
      {
        ChainAt(i);
        FlatTake(datas, i);
        var bytes := chain.Read(0, chain.off);
        out := out + bytes;
        left := left - chain.off;
        chain := chain.next;
        i := i + 1;
        FlatPrefix(datas, i);
        // The source's assertion: a chain is left, or nothing is left to copy.
        assert chain != null || left == 0;
      }
      if left > 0 {
        ChainAt(i);
        FlatTake(datas, i);
        FlatPrefix(datas, i + 1);
        var bytes := chain.Read(0, left);
        PrefixInPiece(Contents(), out, datas[i], left);
        out := out + bytes;
      }
    }

    /** evbuffer_remove. */
    method Remove(datlen: nat) returns (r: int, out: seq<Byte>)
      requires Valid()
      modifies this, cells
      ensures Valid() && cells <= old(cells)
      ensures freezeStart == old(freezeStart) && freezeEnd == old(freezeEnd)
      ensures var n := if datlen >= old(totalLen) then old(totalLen) else datlen;
        if n > 0 && freezeStart then r == -1 && out == [] && Contents() == old(Contents())
        else r == n && out + Contents() == old(Contents()) && |out| == n
      ensures old(TailClean()) ==> TailClean()
      ensures totalLen == 0 && first != null ==> old(totalLen) == 0 && first == old(first)
    {
      hide Segment;
      hide Flat;
      hide LastWithData;
      hide Chain.Ok;
      r, out := Copyout(datlen);
      if r > 0 {
        var d := Drain(r);
        if d < 0 {
          r := -1;
        }
      }
    }

    /** Two buffers with no chain in common. */
    ghost predicate Apart(other: Evbuffer)
      reads this`cells, other`cells
    {
      this != other && cells !! other.cells
    }

    /** Takes over the chains of src in place of its own (COPY_CHAIN). */
    method CopyChains(src: Evbuffer)
      requires src.Wf() && Apart(src)
      modifies this
      ensures Wf() && chains == src.chains && datas == src.datas && k == src.k
      ensures freezeStart == old(freezeStart) && freezeEnd == old(freezeEnd)
      ensures cells == old(cells) + src.cells
    {
      hide Segment;
      hide Flat;
      SegmentWiden(src.chains, src.datas, src.cells, cells, null);
      first, last, lwd, totalLen := src.first, src.last, src.lwd, src.totalLen;
      chains, datas, k := src.chains, src.datas, src.k;
      cells := cells + src.cells;
      assert cells == src.cells + old(cells);
    }

    /** Links the chains of src after its own (APPEND_CHAIN). */
    method AppendChains(src: Evbuffer)
      requires Wf() && src.Wf() && Apart(src) && chains != [] && src.chains != []
      modifies `last, `lwd, `totalLen, `chains, `datas, `k, `cells, cells`next
      ensures Wf() && chains == old(chains) + src.chains && datas == old(datas) + src.datas
      ensures |old(chains)| == |old(datas)| && k == |old(chains)| + src.k
      ensures freezeStart == old(freezeStart) && freezeEnd == old(freezeEnd)
      ensures cells == old(cells) + src.cells
    {
      hide Segment;
      hide Flat;
      hide Nth;
      Members();
      src.Members();
      FlatConcat(datas, src.datas);
      NthAt(chains, |chains| - 1);
      NthAt(src.chains, 0);
      LastNext();
      src.LastNext();
      SetEnd(last, src.first, chains, datas, cells);
      JoinEnds(chains, src.chains, src.k);
      SegmentBoth(chains, datas, cells, src.chains, src.datas, src.cells);
      lwd := if src.lwd == null then last else src.lwd;
      last, totalLen := src.last, totalLen + src.totalLen;
      k, chains, datas, cells := |chains| + src.k, chains + src.chains, datas + src.datas, cells + src.cells;
    }

    /** Links the chains of src before its own (PREPEND_CHAIN). */
    method PrependChains(src: Evbuffer)
      requires Wf() && src.Wf() && Apart(src) && chains != [] && src.chains != []
      modifies `first, `lwd, `totalLen, `chains, `datas, `k, `cells, src.cells`next
      ensures Wf() && chains == src.chains + old(chains) && datas == src.datas + old(datas)
      ensures |src.chains| == |src.datas| && k == |src.chains| + old(k)
      ensures freezeStart == old(freezeStart) && freezeEnd == old(freezeEnd)
      ensures cells == src.cells + old(cells)
    {
      hide Segment;
      hide Flat;
      hide Nth;
      Members();
      src.Members();
      FlatConcat(src.datas, datas);
      NthAt(chains, 0);
      NthAt(src.chains, |src.chains| - 1);
      LastNext();
      src.LastNext();
      SetEnd(src.last, first, src.chains, src.datas, src.cells);
      JoinEnds(src.chains, chains, k);
      SegmentBoth(src.chains, src.datas, src.cells, chains, datas, cells);
      if lwd == null {
        lwd := src.last;
      }
      first, totalLen := src.first, totalLen + src.totalLen;
      k, chains, datas, cells := |src.chains| + k, src.chains + chains, src.datas + datas, src.cells + cells;
    }

    /** Whether moving the contents of src into the buffer does anything. */
    predicate Moves(src: Evbuffer, frozen: bool)
      reads src`totalLen, src`freezeStart
    {
      src.totalLen > 0 && src != this && !frozen && !src.freezeStart
    }

    /** evbuffer_add_buffer. */
    method AddBuffer(src: Evbuffer) returns (r: int)
      requires Valid() && src.Valid() && (src == this || Apart(src))
      modifies this, cells, src, src.cells
      ensures Wf() && src.Valid() && (src == this || Apart(src))
      ensures cells <= old(cells + src.cells) && src.cells <= old(src.cells)
      ensures freezeStart == old(freezeStart) && freezeEnd == old(freezeEnd)
      ensures src.freezeStart == old(src.freezeStart) && src.freezeEnd == old(src.freezeEnd)
      ensures r == if old(src.totalLen) > 0 && src != this && (freezeEnd || src.freezeStart) then -1 else 0
      ensures
        if old(Moves(src, freezeEnd)) then src.first == null
        else first == old(first) && src.first == old(src.first)
      ensures old(Moves(src, freezeEnd)) ==>
        Contents() == old(Contents() + src.Contents()) && src.Contents() == [] && src.TailClean()
      ensures !old(Moves(src, freezeEnd)) ==>
        Contents() == old(Contents()) && src.Contents() == old(src.Contents())
        && (old(TailClean()) ==> TailClean()) && (old(src.TailClean()) ==> src.TailClean())
      ensures LwdOk() <==> (old(!Moves(src, freezeEnd)) || old(totalLen) == 0 || old(TailClean()))
      ensures old(Moves(src, freezeEnd)) && old(src.TailClean()) ==> TailClean()
    {
      hide Segment;
      hide Flat;
      hide LastWithData;
      r := 0;
      if src.totalLen == 0 || src == this {
        return;
      }
      if freezeEnd || src.freezeStart {
        return -1;
      }
      src.HasChains();
      if totalLen == 0 {
        CopyChains(src);
      } else {
        HasChains();
        JoinKeepsLast(datas, k, src.datas, src.k);
        AppendChains(src);
      }
      src.ZeroChains();
    }

    lemma HasChains()
      requires Valid() && totalLen > 0
      ensures chains != [] && |datas| == |chains| && k < |chains| && datas[k] != []
    {
      hide Flat;
      hide Chain.Ok;
      HasData(datas, k);
    }

    /** evbuffer_prepend_buffer. */
    method PrependBuffer(src: Evbuffer) returns (r: int)
      requires Valid() && src.Valid() && (src == this || Apart(src))
      modifies this, cells, src, src.cells
      ensures Wf() && src.Valid() && (src == this || Apart(src))
      ensures cells <= old(cells + src.cells) && src.cells <= old(src.cells)
      ensures freezeStart == old(freezeStart) && freezeEnd == old(freezeEnd)
      ensures src.freezeStart == old(src.freezeStart) && src.freezeEnd == old(src.freezeEnd)
      ensures r == if old(src.totalLen) > 0 && src != this && (freezeStart || src.freezeStart) then -1 else 0
      ensures
        if old(Moves(src, freezeStart)) then src.first == null
        else first == old(first) && src.first == old(src.first)
      ensures old(Moves(src, freezeStart)) ==>
        Contents() == old(src.Contents() + Contents()) && src.Contents() == [] && src.TailClean()
      ensures !old(Moves(src, freezeStart)) ==>
        Contents() == old(Contents()) && src.Contents() == old(src.Contents())
        && (old(TailClean()) ==> TailClean()) && (old(src.TailClean()) ==> src.TailClean())
      ensures LwdOk() <==> (old(!Moves(src, freezeStart)) || old(totalLen) == 0 || old(src.TailClean()))
      ensures old(Moves(src, freezeStart)) && old(totalLen > 0 && TailClean()) ==> TailClean()
      ensures old(Moves(src, freezeStart)) && old(totalLen == 0 && src.TailClean()) ==> TailClean()
    {
      hide Segment;
      hide Flat;
      hide LastWithData;
      r := 0;
      if src.totalLen == 0 || src == this {
        return;
      }
      if freezeStart || src.freezeStart {
        return -1;
      }
      src.HasChains();
      if totalLen == 0 {
        CopyChains(src);
      } else {
        HasChains();
        JoinKeepsLast(src.datas, src.k, datas, k);
        PrependChains(src);
      }
      src.ZeroChains();
    }

    /** advance_last_with_data, when every chain after the one that last_with_datap
        leads to has data. */
    method AdvanceLwd()
      requires Wf() && chains != [] && |datas| == |chains| && forall j | k < j < |datas| :: datas[j] != []
      modifies this`lwd, this`k
      ensures Wf() && k == |chains| - 1
    {
      hide Segment;
      hide Flat;
      hide Chain.Ok;
      var more := true;
      while more
        invariant Wf() && old(k) <= k && (!more ==> k == |chains| - 1)
        decreases more, |chains| - k
      {
        if k > 0 {
          ChainAt(k - 1);
        }
        ChainAt(k);
        var c := if lwd == null then first else lwd.next;
        more := c.next != null;
        if more {
          ChainAt(k + 1);
          more := c.next.off != 0;
        }
        if more {
          lwd, k := c, k + 1;
        }
      }
    }

    /** Replaces the trailing empty chains by a run of chains with data, that leave
        another buffer. */
    method TakeRun(head: Chain, tail: Chain, n: nat, ghost run: seq<Chain>, ghost pieces: seq<seq<Byte>>,
          ghost theirs: set<Chain>)
      requires Valid() && Segment(run, pieces, theirs, tail.next) && run != [] && cells !! theirs
      requires head == run[0] && tail == run[|run| - 1] && n == |Flat(pieces)|
      requires forall i | 0 <= i < |pieces| :: pieces[i] != []
      modifies this, cells`next, tail`next
      ensures Valid() && TailClean() && last == tail && cells == old(cells) + theirs
      ensures freezeStart == old(freezeStart) && freezeEnd == old(freezeEnd)
      ensures Contents() == old(Contents()) + Flat(pieces)
    {
      hide Linked;
      hide Flat;
      hide LastWithData;
      StoreRun(head, tail, n, run, pieces, theirs);
      AdvanceLwd();
    }

    /** TakeRun, with last_with_datap still to be moved. */
    method StoreRun(head: Chain, tail: Chain, n: nat, ghost run: seq<Chain>, ghost pieces: seq<seq<Byte>>,
          ghost theirs: set<Chain>)
      requires Valid() && Segment(run, pieces, theirs, tail.next) && run != [] && cells !! theirs
      requires head == run[0] && tail == run[|run| - 1] && n == |Flat(pieces)|
      requires forall i | 0 <= i < |pieces| :: pieces[i] != []
      modifies this, cells`next, tail`next
      ensures Wf() && last == tail && cells == old(cells) + theirs && chains != [] && |chains| == |datas|
      ensures freezeStart == old(freezeStart) && freezeEnd == old(freezeEnd)
      ensures LastWithData(datas, |datas| - 1) && forall j | k < j < |datas| :: datas[j] != []
      ensures Contents() == old(Contents()) + Flat(pieces)
    {
      hide Segment;
      hide Flat;
      hide LastWithData;
      hide Chain.Ok;
      hide Victim;
      Members();
      VictimIs(datas, k);
      var prev, c;
      ghost var v;
      prev, c, v := FindVictim();
      SegmentNext(run, pieces, theirs, tail.next);
      InsertRunLast(datas, k, pieces);
      SegmentSplit(chains, datas, cells, null, v);
      SetEnd(tail, null, run, pieces, theirs);
      LinkRun(prev, head, v, run, pieces, theirs);
      last, totalLen := tail, totalLen + n;
      assert lwd == Nth(chains, k - 1) by {
        assert k > 0 ==> chains[k - 1] == old(chains)[k - 1];
      }
    }

    /** Stores the head of a run through a link, cutting off what followed it. */
    method LinkRun(prev: Chain?, head: Chain, ghost v: nat, ghost run: seq<Chain>, ghost pieces: seq<seq<Byte>>,
          ghost theirs: set<Chain>)
      requires Linked() && v <= |chains| && prev == Nth(chains, v - 1)
      requires Segment(run, pieces, theirs, null) && run != [] && head == run[0] && cells !! theirs
      modifies this`first, this`chains, this`datas, this`cells, cells`next
      ensures Linked() && first == if prev == null then head else old(first)
      ensures chains == old(chains)[..v] + run && |old(datas)| == |old(chains)| && datas == old(datas)[..v] + pieces
      ensures cells == old(cells) + theirs
    {
      hide Segment;
      hide Chain.Ok;
      Members();
      SegmentSplit(chains, datas, cells, null, v);
      if prev == null {
        first := head;
        SegmentNil(cells, head);
      } else {
        assert chains[..v][v - 1] == prev;
        SegmentNext(chains[..v], datas[..v], cells, if v < |chains| then chains[v] else null);
        SetEnd(prev, head, chains[..v], datas[..v], cells);
      }
      SegmentBoth(chains[..v], datas[..v], cells, run, pieces, theirs);
      chains, datas, cells := chains[..v] + run, datas[..v] + pieces, cells + theirs;
    }

    /** Makes chain i the first, letting go of the run of chains before it. */
    method CutTo(c: Chain, ghost i: nat) returns (head: Chain, ghost theirs: set<Chain>)
      requires Linked() && 0 < i <= k < |chains| && c == chains[i] && last == Nth(chains, |chains| - 1)
      requires first == chains[0] && lwd == if i == k then null else Nth(chains, k - 1)
      modifies this`first, this`chains, this`datas, this`k, this`cells
      ensures Linked() && first == c == Nth(chains, 0) && last == Nth(chains, |chains| - 1)
      ensures lwd == Nth(chains, k - 1) && k < |chains|
      ensures i <= |old(datas)| && chains == old(chains)[i..] && datas == old(datas)[i..] && k == old(k) - i
      ensures head == old(chains)[0] && Segment(old(chains)[..i], old(datas)[..i], theirs, c)
      ensures cells !! theirs && cells + theirs == old(cells)
      ensures old(chains)[i - 1] in theirs && old(chains)[i - 1].next == c
    {
      hide Segment;
      hide Chain.Ok;
      SegmentPart(chains, datas, cells, null, i);
      SegmentSplit(chains, datas, cells, null, i);
      theirs := set x | x in chains[..i];
      SegmentIn(chains[..i], datas[..i], cells, theirs, c);
      SegmentNext(chains[..i], datas[..i], theirs, c);
      SegmentIn(chains[i..], datas[i..], cells, cells - theirs, null);
      head := first;
      first, chains, datas, k, cells := c, chains[i..], datas[i..], k - i, cells - theirs;
    }

    /** The first n bytes end where a reference to the user's memory does. */
    ghost predicate EndsReference(n: nat)
      reads this`chains, this`datas
    {
      exists i | 0 < i <= |chains| :: i <= |datas| && |Flat(datas[..i])| == n && chains[i - 1].immutable
    }

    lemma NoReferences()
      requires Linked() && forall c | c in cells :: !c.immutable
      ensures forall n :: !EndsReference(n)
    {
      Members();
    }

    lemma EndsThere(i: nat, n: nat)
      requires |datas| == |chains| && LwdOk() && i <= k < |chains|
      requires |Flat(datas[..i])| <= n < |Flat(datas[..i])| + |datas[i]|
      ensures EndsReference(n) <==> |Flat(datas[..i])| == n && i > 0 && chains[i - 1].immutable
    {
      hide Flat;
      forall j | 0 <= j <= |datas| && j != i ensures |Flat(datas[..j])| != n {
        if j < i {
          FlatTake(datas, j);
          FlatGrows(datas, j + 1, i);
        } else {
          FlatTake(datas, i);
          FlatGrows(datas, i + 1, j);
        }
      }
    }

    /** The first n bytes do not fill the first chain. */
    ghost predicate InFirst(n: nat)
      reads this`datas
    {
      datas != [] && n < |datas[0]|
    }

    /** A move of n bytes to dst that does not take them all, and that freezing does not stop. */
    ghost predicate MovesPart(dst: Evbuffer, n: nat)
      reads this`totalLen, this`freezeStart, dst`freezeEnd
    {
      dst != this && !dst.freezeEnd && !freezeStart && 0 < n < totalLen
    }

    /** Such a move leaves last_with_datap of dst behind: it moves no whole chain, and adding
        its bytes does; or it takes them all, and adding this buffer does. */
    ghost predicate LosesInto(dst: Evbuffer, n: nat)
      requires dst.Wf()
      reads this`totalLen, this`freezeStart, this`datas
      reads dst`first, dst`last, dst`lwd, dst`totalLen
      reads dst`chains, dst`datas, dst`k, dst`cells, dst`freezeEnd, dst.cells
    {
      if MovesPart(dst, n) then InFirst(n) && dst.Loses(n)
      else n > 0 && n >= totalLen && dst.Moves(this, dst.freezeEnd) && dst.totalLen > 0 && !dst.TailClean()
    }

    /** The walk of evbuffer_remove_buffer over n bytes makes an assertion fire:
        last_with_datap is the link to the first chain, and they fill it. */
    ghost predicate WalkFires(n: nat)
      reads this`datas, this`k
    {
      k == 0 && 0 < |datas| && |datas[0]| <= n
    }

    lemma WalkEnds(n: nat)
      requires Linked() && LwdOk() && n < |Contents()|
      ensures !WalkFires(n)
    {
      hide Flat;
      if 0 < |datas| && k == 0 {
        FlatCut(datas, 1);
        FlatEmptyFrom(datas, 1);
        FlatOne(datas[0]);
        assert datas[..1] == [datas[0]];
      }
    }

    /** What the link moved in the walk leads to, at chain i. */
    lemma LeadsTo(i: nat, link: Chain?)
      requires Linked() && i < |chains| && k < |chains| && first == Nth(chains, 0)
      requires link == if i >= k then null else Nth(chains, k - 1)
      ensures chains[i] == (if link == null then first else link.next) <==> i == 0 && k == 0
      ensures chains[i] == link <==> i + 1 == k
    {
      hide Segment;
      hide Chain.Ok;
      if i < k {
        ChainAt(k - 1);
        ChainsDiffer(i, k);
        if i + 1 != k {
          ChainsDiffer(i, k - 1);
        }
      } else if i > 0 {
        ChainsDiffer(i, 0);
      }
    }

    /** The walk of evbuffer_remove_buffer over the chains that len bytes fill, wherever
        last_with_datap leads.  It is moved off the chains passed: so its assertion, that
        the chain is not the one that last_with_datap leads to, can fire at the first only. */
    method WalkChains(len: nat)
      returns (fired: bool, chain: Chain, previous: Chain, remaining: nat, ghost i: nat)
      requires Linked() && len < |Contents()| && (k < |chains| || k == 0)
      requires first == Nth(chains, 0) && lwd == Nth(chains, k - 1)
      modifies this`lwd
      ensures Linked() && |datas| == |chains| && i < |chains| && k < |chains| && chain == chains[i]
      ensures fired <==> WalkFires(len)
      ensures fired ==> lwd == old(lwd)
      ensures previous == if i == 0 then chain else chains[i - 1]
      ensures |Flat(datas[..i])| + remaining == len
      ensures !fired ==> remaining < |datas[i]| && lwd == if i >= k then null else Nth(chains, k - 1)
      ensures LwdOk() ==> !fired && i <= k < |chains|
    {
      hide Segment;
      hide Flat;
      hide LastWithData;
      hide Chain.Ok;
      Members();
      FlatNothing();
      assert datas != [];
      ChainAt(0);
      if LwdOk() {
        WalkEnds(len);
      }
      chain, previous, remaining, i := first, first, len, 0;
      fired := false;
      while remaining >= chain.off
        invariant Linked() && i < |chains| && chain == chains[i] && chain.off == |datas[i]|
        invariant previous == if i == 0 then chain else chains[i - 1]
        invariant |Flat(datas[..i])| + remaining == len
        invariant lwd == if i >= k then null else Nth(chains, k - 1)
        invariant i > 0 ==> !WalkFires(len)
        decreases |chains| - i
      {
        FlatTake(datas, i);
        FlatPrefix(datas, i + 1);
        ChainAt(i);
        ChainAt(i + 1);
        LeadsTo(i, lwd);
        if chain == if lwd == null then first else lwd.next {
          fired := true;
          return;
        }
        remaining := remaining - chain.off;
        if chain == lwd {
          lwd := null;
        }
        previous, chain := chain, chain.next;
        i := i + 1;
      }
      FlatTake(datas, i);
      FlatPrefix(datas, i + 1);
      if LwdOk() {
        BeforeLast(datas, k, i);
      }
    }

    /** evbuffer_remove_buffer.  The tail of dst is left with an empty chain exactly
        when the bytes moved end with a reference, if dst had none before. */
    method RemoveBuffer(dst: Evbuffer, datlen: nat) returns (r: int)
      requires Valid() && dst.Valid() && (dst == this || Apart(dst))
      modifies this, cells, dst, dst.cells
      ensures dst.Wf() && (dst == this || Apart(dst))
      ensures forall c | c in cells + dst.cells && c !in old(cells + dst.cells) :: fresh(c) && !c.immutable
      ensures freezeStart == old(freezeStart) && freezeEnd == old(freezeEnd)
      ensures dst.freezeStart == old(dst.freezeStart) && dst.freezeEnd == old(dst.freezeEnd)
      ensures r == FIRED <==> old(MovesPart(dst, datlen) && InFirst(datlen) && dst.Fires(datlen))
      ensures var n := if datlen >= old(totalLen) then old(totalLen) else datlen;
        if r == FIRED then dst.Wf()
        else if datlen == 0 || dst == this then
          r == 0 && Contents() == old(Contents()) && dst.Contents() == old(dst.Contents())
        else if dst.freezeEnd || freezeStart then
          r == -1 && Contents() == old(Contents()) && dst.Contents() == old(dst.Contents())
        else
          && r == n && Contents() == old(Contents())[n..]
          && dst.Contents() == old(dst.Contents()) + old(Contents())[..n]
      ensures r != FIRED ==> Valid() && (old(TailClean()) ==> TailClean())
      ensures dst.LwdOk() <==> !old(LosesInto(dst, datlen))
      ensures old(MovesPart(dst, datlen) && (dst.TailClean() || !InFirst(datlen))) ==>
        (dst.TailClean() <==> !old(EndsReference(datlen)))
      ensures old(MovesPart(dst, datlen) && (dst.TailClean() || !InFirst(datlen))) && !dst.TailClean() ==>
        dst.last != null && dst.last.Ok() && !dst.last.immutable && dst.last.Space() > 0
      ensures old(!MovesPart(dst, datlen) && TailClean() && dst.TailClean()) ==> dst.TailClean()
    {
      hide Segment;
      hide Flat;
      hide LastWithData;
      hide EndsReference;
      hide Chain.Ok;
      hide Loses;
      hide Fires;
      if datlen == 0 || dst == this {
        return 0;
      }
      if dst.freezeEnd || freezeStart {
        return -1;
      }
      if datlen >= totalLen {
        r := totalLen;
        var _ := dst.AddBuffer(this);
      } else {
        var fired := RemoveSome(dst, datlen);
        r := if fired then FIRED else datlen;
      }
    }

    /** The part of evbuffer_remove_buffer that leaves some bytes. */
    method RemoveSome(dst: Evbuffer, len: nat) returns (fired: bool)
      requires Valid() && dst.Valid() && Apart(dst)
      requires 0 < len < totalLen && !dst.freezeEnd
      modifies this, cells, dst, dst.cells
      ensures dst.Wf() && Apart(dst) && (fired <==> old(InFirst(len) && dst.Fires(len)))
      ensures forall c | c in cells + dst.cells && c !in old(cells + dst.cells) :: fresh(c) && !c.immutable
      ensures freezeStart == old(freezeStart) && freezeEnd == old(freezeEnd)
      ensures dst.freezeStart == old(dst.freezeStart) && dst.freezeEnd == old(dst.freezeEnd)
      ensures (!fired ==> Valid()) && (dst.LwdOk() <==> !old(InFirst(len) && dst.Loses(len)))
      ensures !fired ==>
        Contents() == old(Contents())[len..] && dst.Contents() == old(dst.Contents()) + old(Contents())[..len]
      ensures !fired && old(TailClean()) ==> TailClean()
      ensures old(dst.TailClean() || !InFirst(len)) ==> (dst.TailClean() <==> !old(EndsReference(len)))
      ensures old(dst.TailClean() || !InFirst(len)) && !dst.TailClean() ==>
        dst.last != null && dst.last.Ok() && !dst.last.immutable && dst.last.Space() > 0
    {
      hide Segment;
      hide Flat;
      hide LastWithData;
      hide EndsReference;
      hide Chain.Ok;
      hide Loses;
      hide Fires;
      var chain, remaining := MoveChains(dst, len);
      dst.CleanLosesNot(remaining);
      ChainAt(0);
      fired := GiveFirst(dst, remaining);
      if !fired {
        TrimFirst(chain, remaining);
      }
    }

    lemma FiresLoses(n: nat)
      requires Wf()
      ensures Fires(n) ==> Loses(n)
    {
      LastIn();
    }

    lemma CleanOrNot()
      requires Valid()
      ensures TailClean() <==> |chains| <= k + 1
    {
    }

    lemma FirstHasPiece()
      requires Wf()
      ensures first != null ==> |datas| > 0
      ensures first == null ==> chains == []
    {
      Members();
    }

    lemma CleanLosesNot(n: nat)
      requires Wf()
      ensures TailClean() ==> !Loses(n) && !Fires(n)
    {
    }

    /** Copies the first bytes of the first chain to dst. */
    method GiveFirst(dst: Evbuffer, n: nat) returns (fired: bool)
      requires Linked() && first == Nth(chains, 0) != null && |datas| == |chains| && n < |datas[0]|
      requires dst.Valid() && Apart(dst) && !dst.freezeEnd && dst.totalLen + n > 0
      modifies dst, dst.cells
      ensures Linked() && first.Ok() && n < first.off && dst.Wf() && Apart(dst)
      ensures fired <==> old(dst.Fires(n))
      ensures dst.LwdOk() <==> !old(dst.Loses(n))
      ensures forall c | c in dst.cells && c !in old(dst.cells) :: fresh(c) && !c.immutable
      ensures dst.freezeStart == old(dst.freezeStart) && dst.freezeEnd == old(dst.freezeEnd)
      ensures !fired ==> dst.Contents() == old(dst.Contents()) + datas[0][..n]
      ensures old(dst.TailClean()) && (n > 0 || !old(dst.last != null && dst.last.immutable)) ==> dst.TailClean()
      ensures old(dst.TailClean()) && n == 0 && old(dst.last != null && dst.last.immutable && dst.totalLen > 0) ==>
        !dst.TailClean()
      ensures old(dst.TailClean()) && !dst.TailClean() ==>
        dst.last != null && dst.last in dst.cells && dst.last.Ok() && !dst.last.immutable && dst.last.Space() > 0
    {
      hide Segment;
      hide Flat;
      hide LastWithData;
      hide Chain.Ok;
      hide Loses;
      hide Fires;
      ChainAt(0);
      var bytes := first.Read(0, n);
      dst.LastIn();
      var r := dst.Add(bytes);
      fired := r == FIRED;
      dst.LastIn();
    }

    /** Moves the chains that len bytes cover whole to dst; chain holds the bytes
        that remain to be moved. */
    method MoveChains(dst: Evbuffer, len: nat) returns (chain: Chain, remaining: nat)
      requires Valid() && dst.Valid() && Apart(dst) && 0 < len < totalLen
      modifies this, cells, dst, dst.cells
      ensures dst.Valid() && Apart(dst) && cells + dst.cells <= old(cells + dst.cells)
      ensures if remaining < len then dst.TailClean() && !old(InFirst(len))
        else
          && old(InFirst(len)) && dst.TailClean() == old(dst.TailClean())
          && dst.Loses(len) == old(dst.Loses(len)) && dst.Fires(len) == old(dst.Fires(len))
      ensures freezeStart == old(freezeStart) && freezeEnd == old(freezeEnd)
      ensures dst.freezeStart == old(dst.freezeStart) && dst.freezeEnd == old(dst.freezeEnd)
      ensures Linked() && first == chain == Nth(chains, 0) && last == Nth(chains, |chains| - 1)
      ensures lwd == Nth(chains, k - 1) && k < |chains| == |datas| && (old(TailClean()) ==> TailClean())
      ensures remaining <= len && dst.totalLen + remaining > 0
      ensures remaining < |datas[0]| && LastWithData(datas[0 := datas[0][remaining..]], k)
      ensures totalLen + remaining == |Contents()| && Contents()[remaining..] == old(Contents())[len..]
      ensures dst.Contents() + datas[0][..remaining] == old(dst.Contents()) + old(Contents())[..len]
      ensures old(EndsReference(len)) <==> remaining == 0 && dst.totalLen > 0 && dst.last != null && dst.last.immutable
    {
      hide Segment;
      hide Flat;
      hide LastWithData;
      hide Loses;
      hide Fires;
      hide EndsReference;
      hide Chain.Ok;
      Members();
      ghost var all, theirs := datas, dst.Contents();
      totalLen := totalLen - len;
      var fired, previous;
      ghost var i;
      fired, chain, previous, remaining, i := WalkChains(len);
      EndsThere(i, len);
      if i > 0 {
        FlatFirst(all, i);
      }
      FlatDropPrefix(all, i, len);
      FlatTakePrefix(all, i, len);
      SuffixKeepsLast(all, k, i);
      GrowKeepsLast(all[i..], k - i, 0, all[i][remaining..]);
      PrefixHasData(all, k, i);
      assert theirs + Flat(all[..i]) + all[i][..remaining] == theirs + (Flat(all[..i]) + all[i][..remaining]);
      if len > remaining {
        HandOver(dst, chain, previous, len - remaining, i);
      } else {
        DropTo(chain, i);
      }
    }

    /** Hands the chains before chain i over to dst. */
    method HandOver(dst: Evbuffer, c: Chain, previous: Chain, n: nat, ghost i: nat)
      requires Linked() && dst.Valid() && Apart(dst) && |datas| == |chains|
      requires 0 < i <= k < |chains| && c == chains[i] && previous == chains[i - 1]
      requires first == chains[0] && last == Nth(chains, |chains| - 1)
      requires lwd == if i == k then null else Nth(chains, k - 1)
      requires n == |Flat(datas[..i])| && forall j | 0 <= j < |datas[..i]| :: datas[..i][j] != []
      modifies this`first, this`chains, this`datas, this`k, this`cells, dst, dst.cells, previous
      ensures dst.Valid() && dst.TailClean() && Apart(dst) && cells + dst.cells == old(cells + dst.cells)
      ensures dst.freezeStart == old(dst.freezeStart) && dst.freezeEnd == old(dst.freezeEnd)
      ensures Linked() && first == c == Nth(chains, 0) && last == Nth(chains, |chains| - 1)
      ensures lwd == Nth(chains, k - 1) && k < |chains| && k == old(k) - i
      ensures chains == old(chains)[i..] && datas == old(datas)[i..]
      ensures dst.Contents() == old(dst.Contents()) + Flat(old(datas)[..i]) && dst.last == previous
    {
      hide Segment;
      hide Flat;
      hide LastWithData;
      hide Chain.Ok;
      ghost var run, pieces := chains[..i], datas[..i];
      var head, theirs := CutTo(c, i);
      dst.TakeRun(head, previous, n, run, pieces, theirs);
    }

    lemma WhichChain(j: nat)
      requires Wf() && j < |chains| && 0 < k < |chains|
      ensures chains[j] == chains[k] <==> j == k
      ensures chains[j] == lwd <==> j == k - 1
    {
      hide Segment;
      hide Flat;
      if j != k {
        ChainsDiffer(j, k);
      }
      if j != k - 1 {
        ChainsDiffer(j, k - 1);
      }
    }

    /** Copies the bytes of the chains from chain s on, up to n bytes of the buffer in
        all: c holds the last of them, and chains s up to it are copied whole. */
    method Gather(start: Chain?, n: nat, skip: nat, ghost s: nat)
      returns (bytes: seq<Byte>, c: Chain?, rest: nat, lostData: bool, lostLink: bool, ghost j: nat)
      requires Valid() && |datas| == |chains| && s <= k < |chains| && 0 < k && start == Nth(chains, s)
      requires skip == |Flat(datas[..s])| && skip < n <= |Contents()|
      ensures s <= j <= |chains| && c == Nth(chains, j) && (c == null ==> rest == 0)
      ensures |Flat(datas[..j])| + rest == n && (j < |chains| ==> rest < |datas[j]|)
      ensures bytes == Contents()[skip..n]
      ensures (lostData <==> j > k) && (lostLink <==> s < k <= j)
    {
      hide Segment;
      hide Flat;
      hide LastWithData;
      hide Chain.Ok;
      c, rest, lostData, lostLink, j := start, n - skip, false, false, s;
      ChainAt(k - 1);
      var lastWithData := lwd.next;
      FlatPrefix(datas, s);
      bytes := [];
      while c != null && rest >= c.off
        invariant s <= j <= |chains| && c == Nth(chains, j)
        invariant |Flat(datas[..j])| + rest == n && Flat(datas[..j]) <= Contents()
        invariant skip <= |Flat(datas[..j])| && bytes == Flat(datas[..j])[skip..]
        invariant (lostData <==> j > k) && (lostLink <==> s < k <= j)
        decreases |chains| - j
      {
        ChainAt(j);
        WhichChain(j);
        TakeOne(datas, j, skip);
        var piece := c.Read(0, c.off);
        bytes, rest := bytes + piece, rest - c.off;
        lostData := lostData || c == lastWithData;
        lostLink := lostLink || c == lwd;
        c, j := c.next, j + 1;
      }
      if c != null {
        ChainAt(j);
        FlatTake(datas, j);
        FlatPrefix(datas, j + 1);
        PrefixInPiece(Contents(), Flat(datas[..j]), datas[j], rest);
        var piece := c.Read(0, rest);
        TailOfPrefix(Contents(), Flat(datas[..j]), piece, skip);
        bytes := bytes + piece;
      } else {
        FlatPrefix(datas, j);
        TailOfPrefix(Contents(), Flat(datas[..j]), [], skip);
      }
    }

    /** evbuffer_pullup.  On success the first chain holds the first n bytes. */
    method Pullup(size: int) returns (ok: bool)
      requires Valid()
      modifies this, cells
      ensures Valid() && forall c | c in cells && c !in old(cells) :: fresh(c) && !c.immutable
      ensures freezeStart == old(freezeStart) && freezeEnd == old(freezeEnd)
      ensures Contents() == old(Contents()) && (old(TailClean()) ==> TailClean())
      ensures var n := if size < 0 then |Contents()| else size;
        && (ok <==> 0 < n <= |Contents()|)
        && (ok ==> first != null && first in cells && n <= |first.data| && first.data[..n] == Contents()[..n])
      ensures old(totalLen) == 0 ==> first == old(first)
    {
      hide Segment;
      hide Flat;
      hide LastWithData;
      hide Chain.Ok;
      var n := if size < 0 then totalLen else size;
      if n == 0 || n > totalLen {
        return false;
      }
      HasChains();
      ok := true;
      ChainAt(0);
      FlatNothing();
      FlatTake(datas, 0);
      FlatPrefix(datas, 1);
      if first.off >= n {
        return;
      }
      if k == 0 {
        BeforeLast(datas, 0, 1);
        assert false;
      }
      if |first.memory| - first.misalign >= n {
        PullInPlace(n);
      } else {
        PullIntoNew(n);
      }
    }

    /** The first piece begins the contents. */
    lemma FirstPrefix(n: nat)
      requires datas != [] && |datas[0]| <= n <= |Contents()|
      ensures |Flat(datas[..1])| == |datas[0]| && datas[0] == Contents()[..|datas[0]|]
      ensures Contents()[..|datas[0]|] + Contents()[|datas[0]|..n] == Contents()[..n]
    {
      FlatNothing();
      hide Flat;
      FlatTake(datas, 0);
      FlatPrefix(datas, 1);
      assert datas[..0] == [];
    }

    /** evbuffer_pullup with enough room in the first chain. */
    method PullInPlace(n: nat)
      requires Valid() && k > 0 && first != null && first.Ok() && n <= totalLen
      requires first.off < n <= |first.memory| - first.misalign
      modifies this, cells
      ensures Valid() && cells == old(cells)
      ensures freezeStart == old(freezeStart) && freezeEnd == old(freezeEnd)
      ensures Contents() == old(Contents()) && (old(TailClean()) ==> TailClean())
      ensures first != null && first in cells && first.data == Contents()[..n]
    {
      hide Segment;
      hide Flat;
      hide LastWithData;
      RoomMeansMutable(first, n);
      hide Chain.Ok;
      Members();
      ChainAt(0);
      FirstPrefix(n);
      var tmp := first;
      var bytes, c, rest, lostData, lostLink, j := Gather(first.next, n, first.off, 1);
      SegmentPart(chains, datas, cells, null, 1);
      SegmentSplit(chains, datas, cells, null, j);
      Pulled(datas, k, n, j, rest, Contents()[..n]);
      assert tmp !in chains[j..] by {
        HeadNotIn(chains, datas, cells, null, j);
      }
      SegmentIn(chains[j..], datas[j..], cells, cells - {tmp}, null);
      tmp.Append(bytes);
      assert tmp.data == Contents()[..n];
      SegmentIn(chains[j..], datas[j..], cells - {tmp}, cells, null);
      PutAhead(tmp, c, rest, j);
      FixLwd(lostData, lostLink, j);
    }

    /** evbuffer_pullup into a new first chain. */
    method PullIntoNew(n: nat)
      requires Valid() && k > 0 && first != null && first.Ok() && first.off < n <= totalLen
      modifies this, cells
      ensures Valid() && forall c | c in cells && c !in old(cells) :: fresh(c) && !c.immutable
      ensures freezeStart == old(freezeStart) && freezeEnd == old(freezeEnd)
      ensures Contents() == old(Contents()) && (old(TailClean()) ==> TailClean())
      ensures first != null && first in cells && first.data == Contents()[..n]
    {
      hide Segment;
      hide Flat;
      hide LastWithData;
      hide Chain.Ok;
      Members();
      FlatNothing();
      assert datas[..0] == [];
      var bytes, c, rest, lostData, lostLink, j := Gather(first, n, 0, 0);
      var tmp := NewChain(n, bytes);
      SegmentSplit(chains, datas, cells, null, j);
      SegmentWiden(chains[j..], datas[j..], cells, {tmp}, null);
      Pulled(datas, k, n, j, rest, Contents()[..n]);
      cells := cells + {tmp};
      PutAhead(tmp, c, rest, j);
      FixLwd(lostData, lostLink, j);
    }

    /** Puts a chain ahead of the ones from j on, less the first bytes of chain j. */
    method PutAhead(tmp: Chain, c: Chain?, rest: nat, ghost j: nat)
      requires |datas| == |chains| && j <= |chains| && c == Nth(chains, j) && tmp in cells && tmp.Ok()
      requires Segment(chains[j..], datas[j..], cells, null) && tmp !in chains[j..]
      requires last == Nth(chains, |chains| - 1) && (c != null ==> rest < |datas[j]|)
      modifies this`first, this`last, this`chains, this`datas, cells
      ensures Linked() && first == tmp && last == Nth(chains, |chains| - 1)
      ensures chains == [tmp] + old(chains)[j..]
      ensures j <= |old(datas)| && (c != null ==> rest < |old(datas)[j]|)
      ensures datas == [old(tmp.data)] + if c != null then old(datas)[j..][0 := old(datas)[j][rest..]] else []
      ensures tmp.data == old(tmp.data)
    {
      hide Segment;
      hide Chain.Ok;
      ghost var left := datas[j..];
      assert forall i | 0 <= i < |chains[j..]| :: chains[j..][i] in cells - {tmp} by {
        SegmentPart(chains[j..], datas[j..], cells, null, 0);
      }
      if c != null {
        SegmentHead(chains[j..], datas[j..], cells, null);
        TrimIn(c, rest, chains[j..], datas[j..], cells, null);
        left := left[0 := left[0][rest..]];
      } else {
        last := tmp;
      }
      SegmentIn(chains[j..], left, cells, cells - {tmp}, null);
      first, tmp.next := tmp, c;
      SegmentIn(chains[j..], left, cells - {tmp}, cells, null);
      SegmentOne(tmp, cells);
      SegmentJoin([tmp], [tmp.data], chains[j..], left, cells, null);
      chains, datas := [tmp] + chains[j..], [tmp.data] + left;
    }

    /** The end of evbuffer_pullup: last_with_datap no longer leads out of a chain
        that is gone, nor to one. */
    method FixLwd(lostData: bool, lostLink: bool, ghost j: nat)
      requires Linked() && chains != [] && first == Nth(chains, 0) && last == Nth(chains, |chains| - 1)
      requires (lostData <==> j > k) && totalLen == |Contents()|
      requires !lostData ==> 0 <= k - j + 1 < |chains|
      requires !lostData && !lostLink ==> lwd == Nth(chains, k - j)
      requires lostLink && !lostData ==> k == j && |datas| == |chains| && datas[1] != []
      modifies this`lwd, this`k
      ensures Wf() && k == if lostData then 0 else old(k) - j + 1
    {
      hide Segment;
      hide Flat;
      hide Chain.Ok;
      if lostData {
        lwd, k := null, 0;
      } else {
        if lostLink {
          ChainAt(0);
          ChainAt(1);
          // The source's other choice here, the link this.first, is never taken.
          assert first.next != null && first.next.off != 0;
          lwd := first;
        }
        k := k - j + 1;
      }
    }
  }
}
