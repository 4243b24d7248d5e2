/** Whole runs of operations on byte queues, against flat byte sequences
    (deps/libevent/buffer.c). */
module EvbufferRun {
  import opened Bytes
  import opened Chains
  import opened Pieces
  import opened Evbuffers
  import opened EvbufferRead

  datatype Op =
    | Add(bytes: seq<Byte>)
    | AddReference(bytes: seq<Byte>)
    | Prepend(bytes: seq<Byte>)
    | Drain(n: nat)
    | Copyout(n: nat)
    | Remove(n: nat)
    | Pullup(size: int)
    | AddBuffer
    | PrependBuffer
    | RemoveBuffer(n: nat)

  /** An operation on one of two buffers; the other one is the second buffer of the
      operations that move bytes. */
  datatype Action = OnFirst(op: Op) | OnSecond(op: Op)

  /** What an operation does to two flat byte sequences and what it gives back. */
  datatype Flats = Flats(it: seq<Byte>, other: seq<Byte>, r: int, out: seq<Byte>)

  function Min(a: nat, b: nat): nat
  {
    if a <= b then a else b
  }

  function Flatly(it: seq<Byte>, other: seq<Byte>, op: Op): Flats
  {
    match op
    case Add(bytes) => Flats(it + bytes, other, 0, [])
    case AddReference(bytes) => Flats(it + bytes, other, 0, [])
    case Prepend(bytes) => Flats(bytes + it, other, 0, [])
    case Drain(n) => Flats(it[Min(n, |it|)..], other, 0, [])
    case Copyout(n) => Flats(it, other, Min(n, |it|), it[..Min(n, |it|)])
    case Remove(n) => Flats(it[Min(n, |it|)..], other, Min(n, |it|), it[..Min(n, |it|)])
    case Pullup(size) =>
      var n: int := if size < 0 then |it| else size;
      if 0 < n <= |it| then Flats(it, other, 0, it[..n]) else Flats(it, other, -1, [])
    case AddBuffer => Flats(it + other, [], 0, [])
    case PrependBuffer => Flats(other + it, [], 0, [])
    case RemoveBuffer(n) => Flats(it[Min(n, |it|)..], other + it[..Min(n, |it|)], Min(n, |it|), [])
  }

  datatype Answer = Answer(r: int, out: seq<Byte>)

  /** One action on two flat byte sequences. */
  function FlatAct(a: seq<Byte>, b: seq<Byte>, action: Action): (seq<Byte>, seq<Byte>, Answer)
  {
    match action
    case OnFirst(op) => var f := Flatly(a, b, op); (f.it, f.other, Answer(f.r, f.out))
    case OnSecond(op) => var f := Flatly(b, a, op); (f.other, f.it, Answer(f.r, f.out))
  }

  /** A run over two flat byte sequences. */
  function FlatRun(a: seq<Byte>, b: seq<Byte>, script: seq<Action>): (seq<Byte>, seq<Byte>, seq<Answer>)
    decreases |script|
  {
    if script == [] then
      (a, b, [])
    else
      var f := FlatAct(a, b, script[0]);
      var rest := FlatRun(f.0, f.1, script[1..]);
      (rest.0, rest.1, [f.2] + rest.2)
  }

  /** What a run keeps: two valid buffers with no chain in common. */
  ghost predicate Ready(a: Evbuffer, b: Evbuffer)
    reads a, b, a.cells, b.cells
  {
    && a.Valid() && b.Valid() && a.Apart(b) && b.Apart(a)
    && !a.freezeStart && !a.freezeEnd && !b.freezeStart && !b.freezeEnd
  }

  /** The operation leaves last_with_datap of one of the buffers behind, or an assertion
      fires: it adds behind an empty chain that last_with_datap has not reached, or puts an
      empty piece before a reference or any piece before an empty one. */
  ghost predicate Breaks(a: Evbuffer, b: Evbuffer, op: Op)
    requires a.Wf() && b.Wf()
    reads a, b, a.cells, b.cells
  {
    match op
    case Add(bytes) => a.Loses(|bytes|)
    case AddReference(bytes) => !a.TailClean() && Victim(a.datas, a.k) != a.k && bytes != []
    case Prepend(bytes) => a.first != null && a.first.immutable && (bytes == [] || a.datas == [] || a.datas[0] == [])
    case AddBuffer => a.Moves(b, a.freezeEnd) && a.totalLen > 0 && !a.TailClean()
    case PrependBuffer => a.Moves(b, a.freezeStart) && a.totalLen > 0 && !b.TailClean()
    case RemoveBuffer(n) => a.LosesInto(b, n)
    case _ => false
  }

  /** last_with_datap has reached the last chain. */
  method IsClean(buf: Evbuffer) returns (r: bool)
    requires buf.Valid()
    ensures r <==> buf.TailClean()
  {
    hide Segment;
    hide Flat;
    hide LastWithData;
    hide Chain.Ok;
    buf.Members();
    var c := LwdChain(buf);
    if c == null {
      return true;
    }
    buf.ChainAt(buf.k);
    r := c.next == null;
  }

  /** What last_with_datap leads to. */
  method LwdChain(buf: Evbuffer) returns (c: Chain?)
    requires buf.Wf()
    ensures c == Nth(buf.chains, buf.k)
  {
    hide Segment;
    hide Flat;
    hide Chain.Ok;
    if buf.k > 0 {
      buf.ChainAt(buf.k - 1);
    }
    c := if buf.lwd == null then buf.first else buf.lwd.next;
  }

  /** Whether adding n bytes would leave last_with_datap behind. */
  method AddLoses(buf: Evbuffer, n: nat) returns (r: bool)
    requires buf.Valid()
    ensures r <==> buf.Loses(n)
  {
    hide Segment;
    hide Flat;
    hide LastWithData;
    var clean := IsClean(buf);
    if clean || n == 0 {
      return false;
    }
    buf.Members();
    buf.LastIn();
    var c := LwdChain(buf);
    ghost var k := buf.k;
    buf.ChainAt(k);
    buf.ChainAt(k + 1);
    var last := buf.last;
    assert Victim(buf.datas, k) == if c.off != 0 then k + 1 else k;
    assert c.next.next == null <==> k + 2 == |buf.chains|;
    if !last.immutable && (n <= last.Space() || last.ShouldRealign(n)) {
      assert buf.Fits(n);
      r := true;
    } else {
      buf.LosesIs(n);
      r := if last.Space() > 0 then c.off == 0 || c.next.next != null else c.off != 0;
    }
  }

  method FirstEmpties(buf: Evbuffer) returns (r: bool)
    requires buf.Wf() && buf.first != null
    ensures r <==> buf.datas == [] || buf.datas[0] == []
  {
    hide Segment;
    hide Flat;
    buf.ChainAt(0);
    r := buf.first.off == 0;
  }

  /** Whether an operation would break the buffers: what a caller can ask first. */
  method Asks(a: Evbuffer, b: Evbuffer, op: Op) returns (r: bool)
    requires Ready(a, b)
    ensures r <==> Breaks(a, b, op)
  {
    hide Segment;
    hide Flat;
    hide LastWithData;
    hide Evbuffer.Loses;
    hide Evbuffer.TailClean;
    var clean;
    match op {
      case Add(bytes) =>
        r := AddLoses(a, |bytes|);
      case AddReference(bytes) =>
        clean := IsClean(a);
        var past := PastData(a);
        r := !clean && past && bytes != [];
      case Prepend(bytes) =>
        r := false;
        if a.first != null {
          var empty := FirstEmpties(a);
          r := a.first.immutable && (bytes == [] || empty);
        }
      case AddBuffer =>
        clean := IsClean(a);
        r := b.totalLen > 0 && a.totalLen > 0 && !clean;
      case PrependBuffer =>
        clean := IsClean(b);
        r := b.totalLen > 0 && a.totalLen > 0 && !clean;
      case RemoveBuffer(n) =>
        r := MoveLoses(a, b, n);
      case Drain(_) => r := false;
      case Copyout(_) => r := false;
      case Remove(_) => r := false;
      case Pullup(_) => r := false;
    }
  }

  /** The first empty chain comes after the one that last_with_datap leads to. */
  method PastData(buf: Evbuffer) returns (r: bool)
    requires buf.Valid()
    ensures r <==> Victim(buf.datas, buf.k) != buf.k
  {
    hide Segment;
    hide Flat;
    hide LastWithData;
    hide Chain.Ok;
    buf.Members();
    var c := LwdChain(buf);
    if c != null {
      buf.ChainAt(buf.k);
    }
    r := c != null && c.off != 0;
  }

  method MoveLoses(a: Evbuffer, b: Evbuffer, n: nat) returns (r: bool)
    requires Ready(a, b)
    ensures r <==> a.LosesInto(b, n)
  {
    hide Segment;
    hide Flat;
    hide LastWithData;
    hide Evbuffer.Loses;
    hide Evbuffer.TailClean;
    if n == 0 || a.totalLen == 0 {
      return false;
    }
    if n >= a.totalLen {
      var clean := IsClean(b);
      return b.totalLen > 0 && !clean;
    }
    var loses := AddLoses(b, n);
    a.Members();
    a.HasChains();
    a.ChainAt(0);
    r := n < a.first.off && loses;
  }

  method DoAdd(a: Evbuffer, b: Evbuffer, bytes: seq<Byte>) returns (r: int)
    requires Ready(a, b)
    modifies a, a.cells
    ensures Ready(a, b) <==> !old(Breaks(a, b, Add(bytes)))
    ensures forall c | c in a.cells && c !in old(a.cells) :: fresh(c)
    ensures r == FIRED ==> old(Breaks(a, b, Add(bytes)))
    ensures r != FIRED ==> r == 0 && a.Contents() == old(a.Contents()) + bytes && b.Contents() == old(b.Contents())
  {
    hide Segment;
    hide Flat;
    hide LastWithData;
    hide Evbuffer.Loses;
    hide Evbuffer.Fires;
    hide Evbuffer.TailClean;
    a.FiresLoses(|bytes|);
    r := a.Add(bytes);
  }

  method DoAddReference(a: Evbuffer, b: Evbuffer, bytes: seq<Byte>) returns (r: int)
    requires Ready(a, b)
    modifies a, a.cells
    ensures Ready(a, b) <==> !old(Breaks(a, b, AddReference(bytes)))
    ensures forall c | c in a.cells && c !in old(a.cells) :: fresh(c)
    ensures r == 0 && a.Contents() == old(a.Contents()) + bytes && b.Contents() == old(b.Contents())
  {
    hide Segment;
    hide Flat;
    hide LastWithData;
    hide Evbuffer.Loses;
    hide Evbuffer.Fires;
    hide Evbuffer.TailClean;
    a.CleanOrNot();
    r := a.AddReference(bytes);
  }

  method DoPrepend(a: Evbuffer, b: Evbuffer, bytes: seq<Byte>) returns (r: int)
    requires Ready(a, b)
    modifies a, a.cells
    ensures Ready(a, b) <==> !old(Breaks(a, b, Prepend(bytes)))
    ensures forall c | c in a.cells && c !in old(a.cells) :: fresh(c)
    ensures r == 0 && a.Contents() == bytes + old(a.Contents()) && b.Contents() == old(b.Contents())
  {
    hide Segment;
    hide Flat;
    hide LastWithData;
    hide Evbuffer.Loses;
    hide Evbuffer.Fires;
    hide Evbuffer.TailClean;
    a.FirstIn();
    a.FirstHasPiece();
    r := a.Prepend(bytes);
  }

  method DoDrain(a: Evbuffer, b: Evbuffer, n: nat) returns (r: int)
    requires Ready(a, b)
    modifies a, a.cells
    ensures Ready(a, b) <==> !old(Breaks(a, b, Drain(n)))
    ensures forall c | c in a.cells && c !in old(a.cells) :: fresh(c)
    ensures var all := old(a.Contents());
      r == 0 && a.Contents() == all[Min(n, |all|)..] && b.Contents() == old(b.Contents())
  {
    hide Segment;
    hide Flat;
    hide LastWithData;
    hide Evbuffer.Loses;
    hide Evbuffer.Fires;
    hide Evbuffer.TailClean;
    r := a.Drain(n);
  }

  method DoRemove(a: Evbuffer, b: Evbuffer, n: nat) returns (r: int, out: seq<Byte>)
    requires Ready(a, b)
    modifies a, a.cells
    ensures Ready(a, b) <==> !old(Breaks(a, b, Remove(n)))
    ensures forall c | c in a.cells && c !in old(a.cells) :: fresh(c)
    ensures var all := old(a.Contents());
      && r == Min(n, |all|) && out == all[..r] && a.Contents() == all[r..] && b.Contents() == old(b.Contents())
  {
    hide Segment;
    hide Flat;
    hide LastWithData;
    hide Evbuffer.Loses;
    hide Evbuffer.Fires;
    hide Evbuffer.TailClean;
    ghost var all := a.Contents();
    r, out := a.Remove(n);
    assert all[..r] == out && all[r..] == a.Contents();
  }

  method DoPullup(a: Evbuffer, b: Evbuffer, size: int) returns (r: int, out: seq<Byte>)
    requires Ready(a, b)
    modifies a, a.cells
    ensures Ready(a, b) <==> !old(Breaks(a, b, Pullup(size)))
    ensures forall c | c in a.cells && c !in old(a.cells) :: fresh(c)
    ensures a.Contents() == old(a.Contents()) && b.Contents() == old(b.Contents())
    ensures var n: int := if size < 0 then |a.Contents()| else size;
      if 0 < n <= |a.Contents()| then r == 0 && out == a.Contents()[..n] else r == -1 && out == []
  {
    hide Segment;
    hide Flat;
    hide LastWithData;
    hide Evbuffer.Loses;
    hide Evbuffer.Fires;
    hide Evbuffer.TailClean;
    var ok := a.Pullup(size);
    a.FirstIn();
    r, out := -1, [];
    if ok {
      var n := if size < 0 then a.totalLen else size;
      a.ChainAt(0);
      out := a.first.Read(0, n);
      r := 0;
    }
  }

  method DoAddBuffer(a: Evbuffer, b: Evbuffer) returns (r: int)
    requires Ready(a, b)
    modifies a, a.cells, b, b.cells
    ensures Ready(a, b) <==> !old(Breaks(a, b, AddBuffer))
    ensures forall c | (c in a.cells || c in b.cells) && c !in old(a.cells) && c !in old(b.cells) :: fresh(c)
    ensures r == 0 && a.Contents() == old(a.Contents() + b.Contents()) && b.Contents() == []
  {
    hide Segment;
    hide Flat;
    hide LastWithData;
    hide Evbuffer.Loses;
    hide Evbuffer.Fires;
    hide Evbuffer.TailClean;
    NothingToMove(a, b);
    r := a.AddBuffer(b);
  }

  method DoPrependBuffer(a: Evbuffer, b: Evbuffer) returns (r: int)
    requires Ready(a, b)
    modifies a, a.cells, b, b.cells
    ensures Ready(a, b) <==> !old(Breaks(a, b, PrependBuffer))
    ensures forall c | (c in a.cells || c in b.cells) && c !in old(a.cells) && c !in old(b.cells) :: fresh(c)
    ensures r == 0 && a.Contents() == old(b.Contents() + a.Contents()) && b.Contents() == []
  {
    hide Segment;
    hide Flat;
    hide LastWithData;
    hide Evbuffer.Loses;
    hide Evbuffer.Fires;
    hide Evbuffer.TailClean;
    NothingToMove(a, b);
    r := a.PrependBuffer(b);
  }

  method DoRemoveBuffer(a: Evbuffer, b: Evbuffer, n: nat) returns (r: int)
    requires Ready(a, b)
    modifies a, a.cells, b, b.cells
    ensures Ready(a, b) <==> !old(Breaks(a, b, RemoveBuffer(n)))
    ensures forall c | (c in a.cells || c in b.cells) && c !in old(a.cells) && c !in old(b.cells) :: fresh(c)
    ensures r == FIRED ==> old(Breaks(a, b, RemoveBuffer(n)))
    ensures var all := old(a.Contents());
      r != FIRED ==> r == Min(n, |all|) && a.Contents() == all[r..] && b.Contents() == old(b.Contents()) + all[..r]
  {
    hide Segment;
    hide Flat;
    hide LastWithData;
    hide Evbuffer.Loses;
    hide Evbuffer.Fires;
    hide Evbuffer.TailClean;
    hide Evbuffer.EndsReference;
    b.FiresLoses(n);
    r := a.RemoveBuffer(b, n);
    assert forall c | c in a.cells || c in b.cells :: c in a.cells + b.cells;
  }

  lemma NothingToMove(a: Evbuffer, b: Evbuffer)
    requires Ready(a, b)
    ensures b.totalLen == 0 ==>
      b.Contents() == [] && a.Contents() + b.Contents() == a.Contents() == b.Contents() + a.Contents()
  {
    hide Flat;
  }

  method DoCopyout(a: Evbuffer, b: Evbuffer, n: nat) returns (r: int, out: seq<Byte>)
    requires Ready(a, b)
    ensures r == Min(n, |a.Contents()|) && out == a.Contents()[..r]
  {
    r, out := a.Copyout(n);
  }

  /** One operation does to the buffers what it does to flat byte sequences, unless an
      assertion fires; and it leaves two valid buffers exactly if it does not break one. */
  method Do(a: Evbuffer, b: Evbuffer, op: Op) returns (r: int, out: seq<Byte>)
    requires Ready(a, b)
    modifies a, a.cells, b, b.cells
    ensures Ready(a, b) <==> !old(Breaks(a, b, op))
    ensures forall c | (c in a.cells || c in b.cells) && c !in old(a.cells) && c !in old(b.cells) :: fresh(c)
    ensures r == FIRED ==> old(Breaks(a, b, op))
    ensures r != FIRED ==>
      Flats(a.Contents(), b.Contents(), r, out) == Flatly(old(a.Contents()), old(b.Contents()), op)
  {
    hide Ready;
    hide Evbuffer.EndsReference;
    hide Evbuffer.Loses;
    hide Evbuffer.LosesInto;
    hide Evbuffer.TailClean;
    out := [];
    match op
    case Add(bytes) => r := DoAdd(a, b, bytes);
    case AddReference(bytes) => r := DoAddReference(a, b, bytes);
    case Prepend(bytes) => r := DoPrepend(a, b, bytes);
    case Drain(n) => r := DoDrain(a, b, n);
    case Copyout(n) => r, out := DoCopyout(a, b, n);
    case Remove(n) => r, out := DoRemove(a, b, n);
    case Pullup(size) => r, out := DoPullup(a, b, size);
    case AddBuffer => r := DoAddBuffer(a, b);
    case PrependBuffer => r := DoPrependBuffer(a, b);
    case RemoveBuffer(n) => r := DoRemoveBuffer(a, b, n);
  }

  lemma ReadyEitherWay(a: Evbuffer, b: Evbuffer)
    requires Ready(a, b)
    ensures Ready(b, a)
  {
  }

  /** Any run of operations on two new buffers gives the answers and leaves the contents
      that flat byte sequences would.  It stops only before an operation that breaks one. */
  method Run(script: seq<Action>) returns (a: Evbuffer, b: Evbuffer, answers: seq<Answer>, ran: nat)
    ensures ran <= |script| && Ready(a, b)
    ensures (a.Contents(), b.Contents(), answers) == FlatRun([], [], script[..ran])
    ensures ran < |script| ==>
      if script[ran].OnFirst? then Breaks(a, b, script[ran].op) else Breaks(b, a, script[ran].op)
  {
    hide Ready;
    hide Flatly;
    hide Breaks;
    a, b := NewBuffers();
    answers, ran := [], 0;
    while ran < |script|
      invariant 0 <= ran <= |script| && Ready(a, b)
      invariant fresh(a) && fresh(b) && forall c | c in a.cells || c in b.cells :: fresh(c)
      invariant (a.Contents(), b.Contents(), answers) == FlatRun([], [], script[..ran])
      decreases |script| - ran
    {
      assert script[..ran + 1] == script[..ran] + [script[ran]];
      FlatRunMore([], [], script[..ran], script[ran]);
      ReadyEitherWay(a, b);
      var breaks, r, out;
      match script[ran] {
        case OnFirst(op) =>
          breaks := Asks(a, b, op);
          if breaks {
            return;
          }
          r, out := Do(a, b, op);
        case OnSecond(op) =>
          breaks := Asks(b, a, op);
          if breaks {
            return;
          }
          r, out := Do(b, a, op);
          ReadyEitherWay(b, a);
      }
      answers, ran := answers + [Answer(r, out)], ran + 1;
    }
  }

  method NewBuffers() returns (a: Evbuffer, b: Evbuffer)
    ensures Ready(a, b) && fresh(a) && fresh(b) && a.cells + b.cells == {}
    ensures a.Contents() == [] == b.Contents()
  {
    a := new Evbuffer();
    b := new Evbuffer();
  }

  /** One more action at the end of a run. */
  lemma {:induction false} FlatRunMore(a: seq<Byte>, b: seq<Byte>, script: seq<Action>, action: Action)
    ensures var run := FlatRun(a, b, script);
      var f := FlatAct(run.0, run.1, action);
      FlatRun(a, b, script + [action]) == (f.0, f.1, run.2 + [f.2])
    decreases |script|
  {
    hide FlatAct;
    if script == [] {
      assert script + [action] == [action];
      FlatRunOne(a, b, action);
      assert [] + [FlatAct(a, b, action).2] == [FlatAct(a, b, action).2];
    } else {
      var f := FlatAct(a, b, script[0]);
      assert (script + [action])[0] == script[0] && (script + [action])[1..] == script[1..] + [action];
      FlatRunMore(f.0, f.1, script[1..], action);
      var run := FlatRun(f.0, f.1, script[1..]);
      var x := FlatAct(run.0, run.1, action).2;
      assert [f.2] + (run.2 + [x]) == [f.2] + run.2 + [x];
    }
  }

  lemma FlatRunOne(a: seq<Byte>, b: seq<Byte>, action: Action)
    ensures var f := FlatAct(a, b, action);
      FlatRun(a, b, [action]) == (f.0, f.1, [f.2])
  {
    hide FlatAct;
    var f := FlatAct(a, b, action);
    assert [action][1..] == [] && [f.2] + [] == [f.2];
  }

  /** An empty insert after a reference leaves an empty chain at the end, and the next
      bytes go into it without last_with_datap: the contents are right, but
      last_with_datap no longer leads to the last chain with data. */
  method EmptyAddLosesLwd() returns (buf: Evbuffer)
    ensures buf.Wf() && buf.Contents() == [1, 2] && !buf.LwdOk()
  {
    hide Segment;
    hide Flat;
    hide LastWithData;
    buf := new Evbuffer();
    var r := buf.AddReference([1]);
    r := buf.Add([]);
    assert buf.Contents() == [1];
    r := buf.Add([2]);
    assert [1] + [2] == [1, 2];
  }

  lemma OneChain(buf: Evbuffer)
    requires buf.Valid() && |buf.chains| == 1
    ensures buf.k == 0
  {
  }

  lemma FirstEndsReference(buf: Evbuffer, x: seq<Byte>, y: seq<Byte>)
    requires buf.datas == [x, y] && |buf.chains| == 2 && buf.chains[0].immutable
    ensures buf.EndsReference(|x|)
  {
    hide Flat;
    FlatOne(x);
    assert buf.datas[..1] == [x] && buf.chains[1 - 1].immutable;
  }

  method TwoReferences() returns (buf: Evbuffer)
    ensures fresh(buf) && (forall c | c in buf.cells :: fresh(c)) && buf.Valid() && buf.TailClean()
    ensures !buf.freezeStart && !buf.freezeEnd
    ensures buf.Contents() == [1, 2] && buf.EndsReference(1)
  {
    hide Segment;
    hide Flat;
    hide LastWithData;
    hide Evbuffer.EndsReference;
    buf := new Evbuffer();
    var r := buf.AddReference([1]);
    OneChain(buf);
    r := buf.AddReference([2]);
    FirstEndsReference(buf, [1], [2]);
    assert [] + [1] + [2] == [1, 2];
  }

  /** The same by a move that ends where a reference does: the other buffer is left with
      an empty chain that last_with_datap has not reached, and the next bytes go into it.
      Moving one byte on then makes an assertion fire. */
  method MoveAtReferenceLosesLwd() returns (buf: Evbuffer, fired: bool)
    ensures buf.Wf() && buf.Contents() == [1, 3] && !buf.LwdOk()
    ensures buf.k == 0 && 0 < |buf.datas| && |buf.datas[0]| == 1 < buf.totalLen && fired
  {
    hide Segment;
    hide Flat;
    hide LastWithData;
    hide Evbuffer.EndsReference;
    var from := TwoReferences();
    buf := new Evbuffer();
    var r;
    r := from.RemoveBuffer(buf, 1);
    assert [] + [1, 2][..1] == [1];
    assert forall c | c in buf.cells :: c in from.cells + buf.cells;
    OneByte(buf);
    r := buf.Add([3]);
    assert [1] + [3] == [1, 3];
    var chain, previous, remaining;
    ghost var i;
    fired, chain, previous, remaining, i := buf.WalkChains(1);
  }

  lemma OneByte(buf: Evbuffer)
    requires buf.Valid() && |buf.Contents()| == 1 && !buf.TailClean()
    ensures buf.k == 0 && |buf.datas| > 1 && |buf.datas[0]| == 1
  {
    hide Flat;
    buf.Members();
    buf.HasChains();
    FlatSplit(buf.datas, 0);
    FlatNothing();
    assert buf.datas[..0] == [];
    FlatEmptyFrom(buf.datas, buf.k + 1);
    if buf.k > 0 {
      FlatSplit(buf.datas, buf.k);
      FlatFirst(buf.datas, buf.k);
    }
  }

  /** A read that fails has put an empty chain at the end of a buffer. */
  method OneEmpty() returns (buf: Evbuffer)
    ensures fresh(buf) && (forall c | c in buf.cells :: fresh(c)) && buf.Valid() && !buf.freezeEnd
    ensures buf.Contents() == [1] && !buf.TailClean() && NoEmptyRefs(buf)
  {
    hide Segment;
    hide Flat;
    hide LastWithData;
    hide HasRoom;
    buf := new Evbuffer();
    var r := buf.AddReference([1]);
    ghost var rooms := InsertRoom(buf, 1);
    buf.HasChains();
  }

  /** And then one that fails too, but has asked for more than that chain holds, has put
      another one behind it. */
  method TwoEmpties() returns (buf: Evbuffer)
    ensures fresh(buf) && (forall c | c in buf.cells :: fresh(c)) && buf.Valid() && !buf.freezeEnd
    ensures buf.Contents() == [1] && buf.last != null
    ensures buf.LastSpace() > 0 && buf.Fires(buf.LastSpace() + 1)
  {
    hide Segment;
    hide Flat;
    hide LastWithData;
    buf := OneEmpty();
    buf.VictimPast();
    buf.HasChains();
    var tmp := NewChain(1000, []);
    AddEmpty(buf, tmp);
    assert buf.last == tmp;
  }

  /** Bytes for which this one is too small go partly into it, and an assertion fires. */
  method AddFires() returns (buf: Evbuffer, room: nat, r: int)
    ensures buf.Wf() && !buf.LwdOk() && r == FIRED && room > 0
    ensures buf.Contents() == [1] + seq(room, _ => 2)
  {
    hide Evbuffer.Linked;
    hide Flat;
    hide LastWithData;
    hide Evbuffer.Fires;
    buf := TwoEmpties();
    buf.FiresLoses(buf.LastSpace() + 1);
    buf.LastIn();
    room := buf.last.Space();
    var bytes := seq(room + 1, _ => 2);
    r := buf.Add(bytes);
    assert bytes[..room] == seq(room, _ => 2);
  }

  /** An empty insert before a reference loses last_with_datap too. */
  method EmptyPrependLosesLwd() returns (buf: Evbuffer)
    ensures buf.Wf() && buf.Contents() == [1] && !buf.LwdOk()
  {
    hide Segment;
    hide Flat;
    hide LastWithData;
    buf := new Evbuffer();
    var r := buf.AddReference([1]);
    r := buf.Prepend([]);
    assert [] + [1] == [1];
  }

  datatype Input =
    | Read(howmuch: int, readable: int, received: seq<Byte>, failed: bool)
    | Take(n: nat)
    | Skip(n: nat)
    | Look(size: int)

  /** readv delivers no more than it has room for. */
  predicate Delivers(input: Input)
  {
    input.Read? ==> |input.received| <= ToRead(input.howmuch, input.readable)
  }

  /** One use of an input buffer, on a flat byte sequence. */
  function FlatInput(s: seq<Byte>, input: Input): (seq<Byte>, seq<Byte>)
  {
    match input
    case Read(_, _, received, failed) => (if failed then s else s + received, [])
    case Take(n) => (s[Min(n, |s|)..], s[..Min(n, |s|)])
    case Skip(n) => (s[Min(n, |s|)..], [])
    case Look(size) =>
      var n: int := if size < 0 then |s| else size;
      (s, if 0 < n <= |s| then s[..n] else [])
  }

  /** The bytes that are left after a run, and the bytes given to the user. */
  function FlatInputs(s: seq<Byte>, inputs: seq<Input>): (seq<Byte>, seq<seq<Byte>>)
    decreases |inputs|
  {
    if inputs == [] then
      (s, [])
    else
      var f := FlatInput(s, inputs[0]);
      var rest := FlatInputs(f.0, inputs[1..]);
      (rest.0, [f.1] + rest.1)
  }

  /** What a run of reads keeps. */
  ghost predicate Readable(buf: Evbuffer)
    reads buf, buf.cells
  {
    buf.Valid() && !buf.freezeStart && !buf.freezeEnd && forall c | c in buf.cells :: !c.immutable
  }

  lemma ReadableHasNoReferences(buf: Evbuffer)
    requires Readable(buf)
    ensures NoEmptyRefs(buf)
  {
    buf.Members();
  }

  method DoInput(buf: Evbuffer, input: Input) returns (out: seq<Byte>)
    requires Readable(buf) && Delivers(input)
    modifies buf, buf.cells
    ensures Readable(buf) && forall c | c in buf.cells && c !in old(buf.cells) :: fresh(c)
    ensures (buf.Contents(), out) == FlatInput(old(buf.Contents()), input)
  {
    hide Segment;
    hide Flat;
    hide LastWithData;
    hide NoEmptyRefs;
    out := [];
    ghost var s := buf.Contents();
    match input
    case Read(howmuch, readable, received, failed) =>
      ReadableHasNoReferences(buf);
      var r := EvbufferRead.Read(buf, howmuch, readable, received, failed);
    case Take(n) =>
      var r;
      r, out := buf.Remove(n);
      assert s[..r] == out && s[r..] == buf.Contents();
    case Skip(n) =>
      var r := buf.Drain(n);
      assert s[|s|..] == [];
    case Look(size) =>
      out := LookAhead(buf, size);
  }

  method LookAhead(buf: Evbuffer, size: int) returns (out: seq<Byte>)
    requires Readable(buf)
    modifies buf, buf.cells
    ensures Readable(buf) && forall c | c in buf.cells && c !in old(buf.cells) :: fresh(c)
    ensures buf.Contents() == old(buf.Contents())
    ensures var s := buf.Contents();
      var n: int := if size < 0 then |s| else size;
      out == if 0 < n <= |s| then s[..n] else []
  {
    hide Segment;
    hide Flat;
    hide LastWithData;
    var ok := buf.Pullup(size);
    out := [];
    if ok {
      var n := if size < 0 then buf.totalLen else size;
      buf.ChainAt(0);
      out := buf.first.Read(0, n);
    }
  }

  /** Any run of reads, removals, drains and pullups on a new buffer: each gives what a
      flat byte sequence would, so bytes received come out in order, each once. */
  method ReadRun(inputs: seq<Input>) returns (buf: Evbuffer, outs: seq<seq<Byte>>)
    requires forall input | input in inputs :: Delivers(input)
    ensures Readable(buf) && (buf.Contents(), outs) == FlatInputs([], inputs)
  {
    hide Readable;
    hide FlatInput;
    hide Delivers;
    buf := NewInput();
    outs := [];
    var i := 0;
    assert inputs[0..] == inputs;
    while i < |inputs|
      invariant 0 <= i <= |inputs| && Readable(buf) && fresh(buf) && forall c | c in buf.cells :: fresh(c)
      invariant FlatInputs([], inputs).0 == FlatInputs(buf.Contents(), inputs[i..]).0
      invariant FlatInputs([], inputs).1 == outs + FlatInputs(buf.Contents(), inputs[i..]).1
      decreases |inputs| - i
    {
      assert inputs[i] in inputs && inputs[i..][1..] == inputs[i + 1..];
      var out := DoInput(buf, inputs[i]);
      ghost var rest := FlatInputs(buf.Contents(), inputs[i + 1..]).1;
      assert outs + ([out] + rest) == outs + [out] + rest;
      outs, i := outs + [out], i + 1;
    }
    assert inputs[i..] == [];
    assert outs + [] == outs;
  }

  method NewInput() returns (buf: Evbuffer)
    ensures Readable(buf) && fresh(buf) && buf.cells == {} && buf.Contents() == []
  {
    buf := new Evbuffer();
  }
}
