/** Two connected bufferevents (deps/libevent/bufferevent_pair.c). */
module Pair {
  import opened Bytes
  import opened Chains
  import opened Pieces
  import opened Evbuffers

  /** One direction: the output of one end and the input of the other. */
  class Channel {
    const output: Evbuffer
    const input: Evbuffer
    /** All that was ever written to the output, and all that was taken from the input. */
    ghost var written: seq<Byte>
    ghost var consumed: seq<Byte>

    /** Outside a transfer nothing leaves the output and nothing enters the input; and every
        byte written is consumed, in the input, or in the output, in that order. */
    ghost predicate Valid()
      reads this, input, output, input.cells, output.cells
    {
      && Sound()
      && output.freezeStart && input.freezeEnd
      && written == consumed + input.Contents() + output.Contents()
    }

    ghost predicate Sound()
      reads input, output, input.cells, output.cells
    {
      && input.Valid() && output.Valid()
      && input.Apart(output) && output.Apart(input)
      && !output.freezeEnd && !input.freezeStart
    }

    /** No memory of the user's is lent, and no empty chain is left at an end. */
    ghost predicate Plain()
      reads input, output, input.cells, output.cells
    {
      && input.TailClean() && output.TailClean()
      && (forall c | c in input.cells :: !c.immutable) && (forall c | c in output.cells :: !c.immutable)
    }

    /** A transfer leaves last_with_datap of the input behind, or an assertion fires: only
        where an empty chain is left at the end of the input. */
    ghost predicate Breaks(high: nat, ignoreWm: bool)
      requires input.Wf()
      reads input, output, input.cells
    {
      var size := input.totalLen;
      if high > 0 && size < high && high - size < output.totalLen then
        output.InFirst(high - size) && input.Loses(high - size)
      else
        && (high == 0 || size < high || ignoreWm)
        && output.totalLen > 0 && size > 0 && !input.TailClean()
    }

    lemma CleanHolds(high: nat, ignoreWm: bool)
      requires Valid()
      ensures input.Wf() && (input.TailClean() ==> !Breaks(high, ignoreWm))
    {
      var size := input.totalLen;
      if high > 0 && size < high {
        input.CleanLosesNot(high - size);
      }
    }

    /** The objects of the direction. */
    ghost function Foot(): set<object>
      reads this, input, output
    {
      {this, input, output} + input.cells + output.cells
    }

    constructor ()
      ensures Valid() && Plain() && written == [] && consumed == [] && fresh(input) && fresh(output)
      ensures input.cells == {} && output.cells == {} && input.Contents() == [] && output.Contents() == []
    {
      hide Evbuffer.Wf;
      hide Flat;
      hide LastWithData;
      var i := new Evbuffer();
      var o := new Evbuffer();
      i.freezeEnd := true;
      o.freezeStart := true;
      input, output := i, o;
      written, consumed := [], [];
    }

    /** The move in be_pair_transfer. */
    method Move(high: nat, ignoreWm: bool)
      requires Sound() && !output.freezeStart && !input.freezeEnd
      modifies input, output, input.cells, output.cells
      ensures Sound() <==> !old(Breaks(high, ignoreWm))
      ensures output.freezeStart == input.freezeEnd == false && (old(Plain()) ==> Plain())
      ensures forall c | (c in input.cells || c in output.cells) && c !in old(input.cells) && c !in old(output.cells) ::
        fresh(c)
      ensures var n := Amount(high, ignoreWm, |old(input.Contents())|, |old(output.Contents())|);
        !old(Breaks(high, ignoreWm)) ==>
          && n <= |old(output.Contents())|
          && input.Contents() == old(input.Contents()) + old(output.Contents())[..n]
          && output.Contents() == old(output.Contents())[n..]
    {
      hide Segment;
      hide Flat;
      hide LastWithData;
      hide Evbuffer.Loses;
      hide Evbuffer.Fires;
      if Plain() {
        output.NoReferences();
      }
      var size := input.totalLen;
      if high > 0 && size < high {
        input.FiresLoses(high - size);
        var _ := output.RemoveBuffer(input, high - size);
        forall c | (c in input.cells || c in output.cells) && c !in old(input.cells) && c !in old(output.cells)
          ensures fresh(c)
        {
          assert c in output.cells + input.cells && c !in old(output.cells + input.cells);
        }
      } else if high == 0 || ignoreWm {
        var _ := input.AddBuffer(output);
      }
    }

    /** be_pair_transfer.  Without ignoreWm the input does not grow past a high watermark. */
    method Transfer(high: nat, ignoreWm: bool)
      requires Valid()
      modifies input, output, input.cells, output.cells
      ensures Valid() <==> !old(Breaks(high, ignoreWm))
      ensures old(Plain()) ==> Valid() && Plain()
      ensures forall c | (c in input.cells || c in output.cells) && c !in old(input.cells) && c !in old(output.cells) ::
        fresh(c)
      ensures var n := Amount(high, ignoreWm, |old(input.Contents())|, |old(output.Contents())|);
        Valid() ==>
          && n <= |old(output.Contents())|
          && input.Contents() == old(input.Contents()) + old(output.Contents())[..n]
          && output.Contents() == old(output.Contents())[n..]
    {
      hide Evbuffer.Wf;
      hide Evbuffer.Loses;
      hide Flat;
      hide LastWithData;
      if Plain() {
        CleanHolds(high, ignoreWm);
      }
      output.freezeStart, input.freezeEnd := false, false;
      Move(high, ignoreWm);
      output.freezeStart, input.freezeEnd := true, true;
    }

    lemma OutputSize()
      requires Valid()
      ensures output.totalLen == |output.Contents()|
    {
    }

    /** bufferevent_write, before the callback of the output. */
    method Write(bytes: seq<Byte>)
      requires Valid()
      modifies this`written, output, output.cells
      ensures Valid() <==> !old(output.Loses(|bytes|))
      ensures old(Plain()) ==> Valid() && Plain()
      ensures written == old(written) + bytes && consumed == old(consumed)
      ensures forall c | c in output.cells && c !in old(output.cells) :: fresh(c)
      ensures input.Contents() == old(input.Contents())
      ensures Valid() ==> output.Contents() == old(output.Contents()) + bytes
    {
      hide Segment;
      hide Flat;
      hide LastWithData;
      hide Evbuffer.Loses;
      hide Evbuffer.Fires;
      output.FiresLoses(|bytes|);
      output.CleanLosesNot(|bytes|);
      output.LastIn();
      var r := output.Add(bytes);
      written := written + bytes;
    }

    /** evbuffer_add_reference on the output: the bytes stay in the user's memory. */
    method Lend(bytes: seq<Byte>)
      requires Valid()
      modifies this`written, output, output.cells
      ensures Valid() <==> old(output.TailClean() || Victim(output.datas, output.k) == output.k) || bytes == []
      ensures written == old(written) + bytes && consumed == old(consumed)
      ensures forall c | c in output.cells && c !in old(output.cells) :: fresh(c)
      ensures input.Contents() == old(input.Contents()) && output.Contents() == old(output.Contents()) + bytes
    {
      hide Segment;
      hide Flat;
      hide LastWithData;
      var _ := output.AddReference(bytes);
      written := written + bytes;
    }

    /** bufferevent_read. */
    method Read(n: nat) returns (out: seq<Byte>)
      requires Valid()
      modifies this`consumed, input, input.cells
      ensures Valid() && consumed == old(consumed) + out && written == old(written)
      ensures input.cells <= old(input.cells) && (old(Plain()) ==> Plain())
      ensures out + input.Contents() == old(input.Contents())
      ensures |out| == if n < |old(input.Contents())| then n else |old(input.Contents())|
      ensures output.Contents() == old(output.Contents())
    {
      hide Segment;
      hide Flat;
      hide LastWithData;
      var r;
      r, out := input.Remove(n);
      consumed := consumed + out;
    }
  }

  /** How many bytes a transfer moves. */
  function Amount(high: nat, ignoreWm: bool, there: nat, here: nat): (n: nat)
    ensures n <= here && (n == 0 || n == here || there + n == high)
    ensures 0 < high && there < high ==> there + n <= high
    ensures n < here ==> 0 < high <= there + n && (high <= there ==> n == 0 && !ignoreWm)
    ensures 0 < high <= there && !ignoreWm ==> n == 0
  {
    if high == 0 then here
    else if there < high then (if high - there < here then high - there else here)
    else if ignoreWm then here else 0
  }

  /** What an end of the pair is set to. */
  datatype End = End(reading: bool, writing: bool, suspended: bool, high: nat)

  /** be_pair_wants_to_talk. */
  predicate WantsToTalk(src: End, dst: End, size: nat)
  {
    src.writing && dst.reading && !dst.suspended && size > 0
  }

  class Ends {
    var a: End
    var b: End
    /** What a writes and b reads, and the other way round. */
    const ab: Channel
    const ba: Channel

    ghost predicate Valid()
      reads this, ab, ab.input, ab.output, ab.input.cells, ab.output.cells
      reads ba, ba.input, ba.output, ba.input.cells, ba.output.cells
    {
      ab.Valid() && ba.Valid() && Separate()
    }

    /** The two directions share nothing. */
    ghost predicate Separate()
      reads ab, ab.input, ab.output, ba, ba.input, ba.output
    {
      ab.Foot() !! ba.Foot() && this !in ab.Foot() && this !in ba.Foot()
    }

    function EndOf(ofA: bool): End
      reads `a, `b
    {
      if ofA then a else b
    }

    /** What an end writes into. */
    function Out(ofA: bool): Channel
    {
      if ofA then ab else ba
    }

    /** bufferevent_pair_new. */
    constructor ()
      ensures Valid() && ab.Plain() && ba.Plain()
      ensures ab.written == [] == ba.written && ab.consumed == [] == ba.consumed
      ensures a == b == End(false, true, false, 0)
    {
      hide Evbuffer.Valid;
      hide Channel.Sound;
      hide Flat;
      var x := new Channel();
      var y := new Channel();
      a, b, ab, ba := End(false, true, false, 0), End(false, true, false, 0), x, y;
    }

    /** Talking leaves last_with_datap of the reader's input behind, or makes an assertion fire. */
    ghost predicate TalkBreaks(fromA: bool)
      requires Out(fromA).input.Wf()
      reads `a, `b, Out(fromA).input, Out(fromA).output, Out(fromA).input.cells
    {
      && WantsToTalk(EndOf(fromA), EndOf(!fromA), |Out(fromA).output.Contents()|)
      && Out(fromA).Breaks(EndOf(!fromA).high, false)
    }

    /** One direction moves what it may, if both of its ends are willing. */
    method Talk(fromA: bool)
      requires Separate() && Out(fromA).Valid()
      modifies Out(fromA).input, Out(fromA).output, Out(fromA).input.cells, Out(fromA).output.cells
      ensures Separate() && (Out(fromA).Valid() <==> !old(TalkBreaks(fromA)))
      ensures old(Out(fromA).Plain()) ==> Out(fromA).Valid() && Out(fromA).Plain()
      ensures var x, y := old(Out(fromA).input.Contents()), old(Out(fromA).output.Contents());
        var n :=
          if WantsToTalk(EndOf(fromA), EndOf(!fromA), |y|) then Amount(EndOf(!fromA).high, false, |x|, |y|) else 0;
        Out(fromA).Valid() ==>
          && Shifted(x, y, n, Out(fromA).input.Contents(), Out(fromA).output.Contents())
          && Kept(Out(fromA).input.Contents(), x, EndOf(!fromA).high)
      ensures !EndOf(fromA).writing || !EndOf(!fromA).reading || EndOf(!fromA).suspended ==>
        && Out(fromA).input.Contents() == old(Out(fromA).input.Contents())
        && Out(fromA).output.Contents() == old(Out(fromA).output.Contents())
      ensures EndOf(fromA).writing && EndOf(!fromA).reading && !EndOf(!fromA).suspended && Out(fromA).Valid() ==>
        Moved(Out(fromA).input.Contents(), Out(fromA).output.Contents(), EndOf(!fromA).high)
    {
      hide Evbuffer.Valid;
      hide Channel.Plain;
      hide Channel.Breaks;
      hide Flat;
      var c := Out(fromA);
      c.OutputSize();
      if WantsToTalk(EndOf(fromA), EndOf(!fromA), c.output.totalLen) {
        c.Transfer(EndOf(!fromA).high, false);
      }
    }

    /** The output of an end takes more bytes: copied, or lent by the user. */
    ghost predicate Takes(byA: bool, bytes: seq<Byte>, lend: bool)
      requires Out(byA).output.Wf()
      reads Out(byA).output, Out(byA).output.cells
    {
      var output := Out(byA).output;
      if lend then output.TailClean() || Victim(output.datas, output.k) == output.k || bytes == []
      else !output.Loses(|bytes|)
    }

    /** Bytes go to the end of an output. */
    method Put(byA: bool, bytes: seq<Byte>, lend: bool)
      requires Valid() && Takes(byA, bytes, lend)
      modifies Out(byA)`written, Out(byA).output, Out(byA).output.cells
      ensures Valid() && Out(byA).written == old(Out(byA).written) + bytes
      ensures Out(byA).output.Contents() == old(Out(byA).output.Contents()) + bytes
      ensures Out(byA).input.Contents() == old(Out(byA).input.Contents())
      ensures Out(byA).input.TailClean() == old(Out(byA).input.TailClean())
      ensures !lend && old(Out(byA).Plain()) ==> Out(byA).Plain()
      ensures forall c | c in Out(byA).output.cells && c !in old(Out(byA).output.cells) :: fresh(c)
    {
      hide Evbuffer.Valid;
      hide Channel.Plain;
      hide Flat;
      if lend {
        Out(byA).Lend(bytes);
      } else {
        Out(byA).Write(bytes);
      }
    }

    /** bufferevent_write on one end, or evbuffer_add_reference on its output, and then
        be_pair_outbuf_cb. */
    method Write(byA: bool, bytes: seq<Byte>, lend: bool)
      requires Valid() && Takes(byA, bytes, lend)
      modifies Out(byA), Out(byA).input, Out(byA).output, Out(byA).input.cells, Out(byA).output.cells
      ensures Separate() && Out(!byA).Valid()
      ensures Out(byA).written == old(Out(byA).written) + bytes && Out(byA).consumed == old(Out(byA).consumed)
      ensures var x, y := old(Out(byA).input.Contents()), old(Out(byA).output.Contents()) + bytes;
        var talks := bytes != [] && WantsToTalk(EndOf(byA), EndOf(!byA), |y|);
        && (!talks || old(Out(byA).input.TailClean()) ==> Valid())
        && (Valid() ==>
              && Shifted(x, y, if talks then Amount(EndOf(!byA).high, false, |x|, |y|) else 0,
                         Out(byA).input.Contents(), Out(byA).output.Contents())
              && Kept(Out(byA).input.Contents(), x, EndOf(!byA).high))
      ensures !EndOf(byA).writing || !EndOf(!byA).reading || EndOf(!byA).suspended ==>
        && Out(byA).input.Contents() == old(Out(byA).input.Contents())
        && Out(byA).output.Contents() == old(Out(byA).output.Contents()) + bytes
      ensures bytes != [] && EndOf(byA).writing && EndOf(!byA).reading && !EndOf(!byA).suspended && Valid() ==>
        Moved(Out(byA).input.Contents(), Out(byA).output.Contents(), EndOf(!byA).high)
      ensures !lend && old(Out(byA).Plain()) ==> Valid() && Out(byA).Plain()
    {
      hide Channel.Valid;
      hide Flat;
      hide Channel.Plain;
      hide Channel.Breaks;
      hide Takes;
      hide Moved;
      hide Amount;
      Put(byA, bytes, lend);
      Out(byA).CleanHolds(EndOf(!byA).high, false);
      if bytes != [] {
        Talk(byA);
      }
    }

    /** bufferevent_read on one end. */
    method Read(byA: bool, n: nat) returns (out: seq<Byte>)
      requires Valid()
      modifies Out(!byA), Out(!byA).input, Out(!byA).input.cells
      ensures Valid() && Out(!byA).consumed == old(Out(!byA).consumed) + out
      ensures Out(!byA).written == old(Out(!byA).written)
      ensures out + Out(!byA).input.Contents() == old(Out(!byA).input.Contents())
      ensures old(Out(!byA).Plain()) ==> Out(!byA).Plain()
    {
      hide Evbuffer.Valid;
      hide Channel.Plain;
      hide Flat;
      out := Out(!byA).Read(n);
    }

    /** bufferevent_enable on one end, and then be_pair_enable. */
    method Enable(ofA: bool, reading: bool, writing: bool)
      requires Valid()
      modifies `a, `b
      modifies ab.input, ab.output, ab.input.cells, ab.output.cells
      modifies ba.input, ba.output, ba.input.cells, ba.output.cells
      ensures Separate() && EndOf(!ofA) == old(EndOf(!ofA))
      ensures EndOf(ofA) == old(EndOf(ofA)).(
        reading := old(EndOf(ofA)).reading || reading, writing := old(EndOf(ofA)).writing || writing)
      ensures Out(!ofA).Valid() <==>
        !(reading && !EndOf(ofA).suspended
          && WantsToTalk(EndOf(!ofA), EndOf(ofA), |old(Out(!ofA).output.Contents())|)
          && old(Out(!ofA).Breaks(EndOf(ofA).high, false)))
      ensures Out(ofA).Valid() <==>
        !(writing
          && WantsToTalk(EndOf(ofA), EndOf(!ofA), |old(Out(ofA).output.Contents())|)
          && old(Out(ofA).Breaks(EndOf(!ofA).high, false)))
      ensures !a.writing || !b.reading || b.suspended ==>
        ab.input.Contents() == old(ab.input.Contents()) && ab.output.Contents() == old(ab.output.Contents())
      ensures !b.writing || !a.reading || a.suspended ==>
        ba.input.Contents() == old(ba.input.Contents()) && ba.output.Contents() == old(ba.output.Contents())
      ensures EndOf(!ofA).writing && reading && !EndOf(ofA).suspended && Out(!ofA).Valid() ==>
        Moved(Out(!ofA).input.Contents(), Out(!ofA).output.Contents(), EndOf(ofA).high)
      ensures writing && EndOf(!ofA).reading && !EndOf(!ofA).suspended && Out(ofA).Valid() ==>
        Moved(Out(ofA).input.Contents(), Out(ofA).output.Contents(), EndOf(!ofA).high)
      ensures ab.Valid() ==> Kept(ab.input.Contents(), old(ab.input.Contents()), b.high)
      ensures ba.Valid() ==> Kept(ba.input.Contents(), old(ba.input.Contents()), a.high)
      ensures old(ab.Plain() && ba.Plain()) ==> Valid() && ab.Plain() && ba.Plain()
    {
      hide Channel.Valid;
      hide Channel.Plain;
      hide Channel.Breaks;
      hide Flat;
      hide Kept;
      hide Moved;
      var e := EndOf(ofA);
      SetEnd(ofA, e.(reading := e.reading || reading, writing := e.writing || writing));
      TalkBoth(ofA, reading && !e.suspended, writing);
    }

    /** What an end reads, and what it writes, may move. */
    method TalkBoth(ofA: bool, reading: bool, writing: bool)
      requires Valid()
      modifies ab.input, ab.output, ab.input.cells, ab.output.cells
      modifies ba.input, ba.output, ba.input.cells, ba.output.cells
      ensures Separate()
      ensures Out(!ofA).Valid() <==> !(reading && old(TalkBreaks(!ofA)))
      ensures Out(ofA).Valid() <==> !(writing && old(TalkBreaks(ofA)))
      ensures forall fromA: bool :: !EndOf(fromA).writing || !EndOf(!fromA).reading || EndOf(!fromA).suspended ==>
        && Out(fromA).input.Contents() == old(Out(fromA).input.Contents())
        && Out(fromA).output.Contents() == old(Out(fromA).output.Contents())
      ensures reading && EndOf(!ofA).writing && EndOf(ofA).reading && !EndOf(ofA).suspended && Out(!ofA).Valid() ==>
        Moved(Out(!ofA).input.Contents(), Out(!ofA).output.Contents(), EndOf(ofA).high)
      ensures writing && EndOf(ofA).writing && EndOf(!ofA).reading && !EndOf(!ofA).suspended && Out(ofA).Valid() ==>
        Moved(Out(ofA).input.Contents(), Out(ofA).output.Contents(), EndOf(!ofA).high)
      ensures Out(!ofA).Valid() ==>
        Kept(Out(!ofA).input.Contents(), old(Out(!ofA).input.Contents()), EndOf(ofA).high)
      ensures Out(ofA).Valid() ==>
        Kept(Out(ofA).input.Contents(), old(Out(ofA).input.Contents()), EndOf(!ofA).high)
      ensures old(ab.Plain() && ba.Plain()) ==> Valid() && ab.Plain() && ba.Plain()
    {
      hide Channel.Valid;
      hide Channel.Plain;
      hide Channel.Breaks;
      hide Flat;
      hide TalkBreaks;
      hide Kept;
      hide Moved;
      hide Shifted;
      hide Amount;
      hide WantsToTalk;
      NothingAdded();
      if reading {
        Talk(!ofA);
      }
      if writing {
        Talk(ofA);
      }
    }

    /** bufferevent_disable, bufferevent_setwatermark and suspension set the fields only. */
    method SetEnd(ofA: bool, e: End)
      requires Valid()
      modifies `a, `b
      ensures Valid() && EndOf(ofA) == e && EndOf(!ofA) == old(EndOf(!ofA))
    {
      if ofA {
        a := e;
      } else {
        b := e;
      }
    }

    /** One direction moves what it has, whatever its ends are set to. */
    method Force(fromA: bool)
      requires Separate() && Out(fromA).Valid()
      modifies Out(fromA).input, Out(fromA).output, Out(fromA).input.cells, Out(fromA).output.cells
      ensures Separate() && (Out(fromA).Valid() <==> !old(Out(fromA).Breaks(EndOf(!fromA).high, true)))
      ensures old(Out(fromA).Plain()) ==> Out(fromA).Valid() && Out(fromA).Plain()
      ensures var x, y := old(Out(fromA).input.Contents()), old(Out(fromA).output.Contents());
        Out(fromA).Valid() ==>
          && Shifted(x, y, Amount(EndOf(!fromA).high, true, |x|, |y|),
                     Out(fromA).input.Contents(), Out(fromA).output.Contents())
          && Moved(Out(fromA).input.Contents(), Out(fromA).output.Contents(), EndOf(!fromA).high)
          && (EndOf(!fromA).high == 0 || |x| >= EndOf(!fromA).high ==> Out(fromA).output.Contents() == [])
          && (|x| < EndOf(!fromA).high ==> |Out(fromA).input.Contents()| <= EndOf(!fromA).high)
    {
      hide Evbuffer.Valid;
      hide Channel.Plain;
      hide Channel.Breaks;
      hide Flat;
      Out(fromA).Transfer(EndOf(!fromA).high, true);
    }

    /** be_pair_flush, in a mode other than BEV_NORMAL. */
    method Flush(ofA: bool, reading: bool, writing: bool)
      requires Valid()
      modifies ab.input, ab.output, ab.input.cells, ab.output.cells
      modifies ba.input, ba.output, ba.input.cells, ba.output.cells
      ensures Separate()
      ensures Out(!ofA).Valid() <==> !(reading && old(Out(!ofA).Breaks(EndOf(ofA).high, true)))
      ensures Out(ofA).Valid() <==> !(writing && old(Out(ofA).Breaks(EndOf(!ofA).high, true)))
      ensures old(ab.Plain() && ba.Plain()) ==> Valid() && ab.Plain() && ba.Plain()
      ensures var x, y := old(Out(!ofA).input.Contents()), old(Out(!ofA).output.Contents());
        Out(!ofA).Valid() ==>
          && Shifted(x, y, if reading then Amount(EndOf(ofA).high, true, |x|, |y|) else 0,
                     Out(!ofA).input.Contents(), Out(!ofA).output.Contents())
          && (reading ==> Moved(Out(!ofA).input.Contents(), Out(!ofA).output.Contents(), EndOf(ofA).high))
      ensures var x, y := old(Out(ofA).input.Contents()), old(Out(ofA).output.Contents());
        Out(ofA).Valid() ==>
          && Shifted(x, y, if writing then Amount(EndOf(!ofA).high, true, |x|, |y|) else 0,
                     Out(ofA).input.Contents(), Out(ofA).output.Contents())
          && (writing ==> Moved(Out(ofA).input.Contents(), Out(ofA).output.Contents(), EndOf(!ofA).high))
    {
      hide Channel.Valid;
      hide Channel.Plain;
      hide Channel.Breaks;
      hide Flat;
      hide Shifted;
      NothingShifted();
      if reading {
        Force(!ofA);
      }
      if writing {
        Force(ofA);
      }
    }
  }

  /** The first n bytes of an output have gone to the end of an input. */
  predicate Shifted(input: seq<Byte>, output: seq<Byte>, n: nat, input': seq<Byte>, output': seq<Byte>)
  {
    n <= |output| && input' == input + output[..n] && output' == output[n..]
  }

  /** Nothing is left to move, or the input is full. */
  predicate Moved(input: seq<Byte>, output: seq<Byte>, high: nat)
  {
    output == [] || (high > 0 && |input| >= high)
  }

  lemma NothingShifted()
    ensures forall x, y :: Shifted(x, y, 0, x, y)
  {
  }

  /** An input grew at its end only, and not past its high watermark. */
  predicate Kept(now: seq<Byte>, before: seq<Byte>, high: nat)
  {
    before <= now && (high > 0 && |now| > high ==> now == before)
  }

  lemma NothingAdded()
    ensures forall x, high :: Kept(x, x, high)
  {
  }
}
