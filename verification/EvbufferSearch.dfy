/** Searching a buffer across its chains, and reading lines (deps/libevent/buffer.c). */
module EvbufferSearch {
  import opened Bytes
  import opened Chains
  import opened Pieces
  import opened Evbuffers
  import opened Lines

  const CHUNK := 128

  /** A position in a buffer: pos bytes from its start, posInChain from the start of
      the data of chain. */
  datatype Ptr = Ptr(pos: int, chain: Chain?, posInChain: nat)
  datatype MaybePtr = None | Some(ptr: Ptr)

  /** The pointer p leads into chain j, or past the last chain. */
  ghost predicate PtrAt(buf: Evbuffer, p: Ptr, j: nat)
    reads buf`chains, buf`datas
  {
    && j <= |buf.chains| == |buf.datas|
    && p.chain == Nth(buf.chains, j)
    && p.pos == |Flat(buf.datas[..j])| + p.posInChain
    && if j < |buf.chains| then p.posInChain <= |buf.datas[j]| else p.posInChain == 0
  }

  /** memchr over len bytes. */
  method Memchr(s: seq<Byte>, from: nat, len: nat, b: Byte) returns (r: int)
    requires from + len <= |s|
    ensures r < 0 ==> NoHit(Just(b), s, from, from + len)
    ensures r >= 0 ==> from <= r < from + len && s[r] == b && NoHit(Just(b), s, from, r)
  {
    r := from;
    while r < from + len
      invariant from <= r <= from + len && NoHit(Just(b), s, from, r)
    {
      if s[r] == b {
        return;
      }
      r := r + 1;
    }
    r := -1;
  }

  /** find_eol_char: in chunks of 128 bytes, finds what a scan byte by byte would. */
  method FindEolChar(s: seq<Byte>) returns (r: int)
    ensures r < 0 ==> NoHit(Eol, s, 0, |s|)
    ensures r >= 0 ==> r < |s| && Hit(Eol, s[r]) && NoHit(Eol, s, 0, r)
  {
    var at := 0;
    while at < |s|
      invariant 0 <= at && NoHit(Eol, s, 0, if at < |s| then at else |s|)
      decreases |s| - at
    {
      var chunk := if at + CHUNK < |s| then CHUNK else |s| - at;
      var cr := Memchr(s, at, chunk, CR);
      var lf := Memchr(s, at, chunk, LF);
      if cr >= 0 {
        if lf >= 0 && lf < cr {
          return lf;
        }
        return cr;
      } else if lf >= 0 {
        return lf;
      }
      at := at + CHUNK;
    }
    r := -1;
  }

  method FindInBytes(s: seq<Byte>, w: Want) returns (r: int)
    ensures r < 0 ==> NoHit(w, s, 0, |s|)
    ensures r >= 0 ==> r < |s| && Hit(w, s[r]) && NoHit(w, s, 0, r)
  {
    match w
    case Just(b) => r := Memchr(s, 0, |s|, b);
    case Eol => r := FindEolChar(s);
  }

  /** The bytes of piece j are where they belong in the contents. */
  lemma PieceAt(buf: Evbuffer, j: nat)
    requires j < |buf.datas|
    ensures var at := |Flat(buf.datas[..j])|;
      && at + |buf.datas[j]| == |Flat(buf.datas[..j + 1])| <= |buf.Contents()|
      && buf.Contents()[at..at + |buf.datas[j]|] == buf.datas[j]
  {
    hide Flat;
    FlatTake(buf.datas, j);
    FlatPrefix(buf.datas, j + 1);
    var before := Flat(buf.datas[..j]);
    assert (before + buf.datas[j])[|before|..] == buf.datas[j];
  }

  /** A stretch without hits inside one piece is one in the contents. */
  lemma NoHitInPiece(w: Want, all: seq<Byte>, piece: seq<Byte>, at: nat, from: nat, to: nat)
    requires at + |piece| <= |all| && all[at..at + |piece|] == piece && from <= to <= |piece|
    requires forall i | from <= i < to :: !Hit(w, piece[i])
    ensures NoHit(w, all, at + from, at + to)
  {
    forall i | at + from <= i < at + to ensures !Hit(w, all[i]) {
      assert all[i] == all[at..at + |piece|][i - at] == piece[i - at];
    }
  }

  lemma NoHitInSlice(w: Want, all: seq<Byte>, piece: seq<Byte>, at: nat, from: nat, s: seq<Byte>, k: nat)
    requires at + |piece| <= |all| && all[at..at + |piece|] == piece && from + |s| <= |piece|
    requires s == piece[from..from + |s|]
    requires k <= |s| && NoHit(w, s, 0, k)
    ensures NoHit(w, all, at + from, at + from + k)
    ensures k < |s| ==> all[at + from + k] == s[k]
  {
    hide Hit;
    forall i | from <= i < from + k ensures !Hit(w, piece[i]) {
      assert piece[i] == s[i - from];
    }
    NoHitInPiece(w, all, piece, at, from, from + k);
    assert k < |s| ==> all[at + from + k] == all[at..at + |piece|][from + k] == s[k];
  }

  lemma PtrInside(buf: Evbuffer, p: Ptr, j: nat)
    requires PtrAt(buf, p, j)
    ensures 0 <= p.pos <= |buf.Contents()|
    ensures j == |buf.chains| ==> p.pos == |buf.Contents()|
  {
    hide Flat;
    if j < |buf.datas| {
      PieceAt(buf, j);
    } else {
      FlatPrefix(buf.datas, j);
    }
  }

  /** Stepping over the rest of a chain. */
  lemma PtrNext(buf: Evbuffer, p: Ptr, j: nat)
    requires buf.Linked() && PtrAt(buf, p, j) && p.chain != null
    ensures j < |buf.chains| == |buf.datas| && p.chain.off == |buf.datas[j]|
    ensures PtrAt(buf, Ptr(p.pos + p.chain.off - p.posInChain, p.chain.next, 0), j + 1)
  {
    hide Flat;
    buf.ChainAt(j);
    PieceAt(buf, j);
  }

  lemma PtrStart(buf: Evbuffer)
    requires buf.Wf()
    ensures PtrAt(buf, Ptr(0, buf.first, 0), 0)
  {
    hide Flat;
    buf.Members();
    FlatNothing();
    assert buf.datas[..0] == [];
  }

  /** Scans the rest of one chain. */
  method FindInChain(buf: Evbuffer, it: Ptr, w: Want, ghost j: nat) returns (r: int)
    requires buf.Wf() && PtrAt(buf, it, j) && it.chain != null
    ensures j < |buf.chains| == |buf.datas| && it.posInChain <= it.chain.off == |buf.datas[j]|
    ensures 0 <= it.pos && it.pos + it.chain.off - it.posInChain <= |buf.Contents()|
    ensures r < 0 ==> NoHit(w, buf.Contents(), it.pos, it.pos + it.chain.off - it.posInChain)
    ensures r >= 0 ==> it.posInChain + r < it.chain.off && Hit(w, buf.Contents()[it.pos + r])
    ensures r >= 0 ==> NoHit(w, buf.Contents(), it.pos, it.pos + r)
  {
    hide Segment;
    hide Flat;
    hide Chain.Ok;
    hide NoHit;
    hide Hit;
    PtrNext(buf, it, j);
    buf.ChainAt(j);
    PieceAt(buf, j);
    var chain, i := it.chain, it.posInChain;
    var s := chain.Read(i, chain.off - i);
    r := FindInBytes(s, w);
    NoHitInSlice(w, buf.Contents(), buf.datas[j], |Flat(buf.datas[..j])|, i, s, if r >= 0 then r else |s|);
  }

  /** evbuffer_strchr and evbuffer_find_eol_char: the first hit from a position on. */
  method FindFrom(buf: Evbuffer, start: Ptr, w: Want, ghost j0: nat) returns (r: int, it: Ptr, ghost j: nat)
    requires buf.Wf() && PtrAt(buf, start, j0)
    ensures 0 <= start.pos <= |buf.Contents()|
    ensures r < 0 ==> NoHit(w, buf.Contents(), start.pos, |buf.Contents()|)
    ensures r >= 0 ==> PtrAt(buf, it, j) && it.pos == r && it.chain != null && it.posInChain < it.chain.off
    ensures r >= 0 ==>
      start.pos <= r < |buf.Contents()| && Hit(w, buf.Contents()[r]) && NoHit(w, buf.Contents(), start.pos, r)
  {
    hide Segment;
    hide Flat;
    hide Chain.Ok;
    hide Hit;
    buf.Members();
    PtrInside(buf, start, j0);
    it, j := start, j0;
    while it.chain != null
      invariant PtrAt(buf, it, j) && start.pos <= it.pos <= |buf.Contents()|
      invariant NoHit(w, buf.Contents(), start.pos, it.pos)
      decreases |buf.chains| - j
    {
      PtrNext(buf, it, j);
      var cp := FindInChain(buf, it, w, j);
      if cp >= 0 {
        it := Ptr(it.pos + cp, it.chain, it.posInChain + cp);
        return it.pos, it, j;
      }
      it, j := Ptr(it.pos + it.chain.off - it.posInChain, it.chain.next, 0), j + 1;
    }
    PtrInside(buf, it, j);
    r := -1;
  }

  /** One more stretch of what has been compared. */
  lemma OccursStep(all: seq<Byte>, what: seq<Byte>, pos: nat, done: nat, n: nat)
    requires pos + |what| <= |all| && done + n <= |what|
    requires all[pos..pos + done] == what[..done]
    ensures all[pos..pos + done + n] == what[..done + n] <==> all[pos + done..pos + done + n] == what[done..done + n]
  {
    var x, y := all[pos..pos + done + n], what[..done + n];
    assert x == all[pos..pos + done] + all[pos + done..pos + done + n];
    assert y == what[..done] + what[done..done + n];
    if x == y {
      assert x[done..] == all[pos + done..pos + done + n] && y[done..] == what[done..done + n];
    }
  }

  lemma OccursPrefix(all: seq<Byte>, what: seq<Byte>, pos: nat, n: nat)
    requires n <= |what| && Occurs(all, what, pos)
    ensures all[pos..pos + n] == what[..n]
  {
    SliceOfSlice(all, pos, |what|, 0, n);
  }

  lemma CompareStep(all: seq<Byte>, what: seq<Byte>, pos: nat, done: nat, n: nat)
    requires pos + |what| <= |all| && done + n <= |what| && all[pos..pos + done] == what[..done]
    ensures if all[pos + done..pos + done + n] == what[done..done + n] then all[pos..pos + done + n] == what[..done + n]
      else !Occurs(all, what, pos)
  {
    OccursStep(all, what, pos, done, n);
    if Occurs(all, what, pos) {
      OccursPrefix(all, what, pos, done + n);
    }
  }

  lemma PieceSlice(buf: Evbuffer, j: nat, from: nat, n: nat)
    requires j < |buf.datas| && from + n <= |buf.datas[j]|
    ensures var at := |Flat(buf.datas[..j])| + from;
      at + n <= |buf.Contents()| && buf.Contents()[at..at + n] == buf.datas[j][from..from + n]
  {
    hide Flat;
    PieceAt(buf, j);
    var at := |Flat(buf.datas[..j])|;
    SliceOfSlice(buf.Contents(), at, |buf.datas[j]|, from, n);
  }

  /** Compares the rest of mem with what it can reach in one chain. */
  method CompareChain(buf: Evbuffer, at: Ptr, mem: seq<Byte>, done: nat, ghost j: nat) returns (n: nat, equal: bool)
    requires buf.Wf() && PtrAt(buf, at, j) && at.chain != null && done <= |mem| && done <= at.pos
    requires at.pos - done + |mem| <= |buf.Contents()|
    requires buf.Contents()[at.pos - done..at.pos] == mem[..done]
    ensures done + n <= |mem| && at.pos + n <= |buf.Contents()|
    ensures equal ==> buf.Contents()[at.pos - done..at.pos + n] == mem[..done + n]
    ensures !equal ==> !Occurs(buf.Contents(), mem, at.pos - done)
    ensures done + n < |mem| ==> PtrAt(buf, Ptr(at.pos + n, at.chain.next, 0), j + 1)
  {
    hide Occurs;
    hide Segment;
    hide Flat;
    hide Chain.Ok;
    buf.Members();
    PtrNext(buf, at, j);
    buf.ChainAt(j);
    var chain, position := at.chain, at.posInChain;
    n := if |mem| - done + position > chain.off then chain.off - position else |mem| - done;
    var bytes := chain.Read(position, n);
    equal := bytes == mem[done..done + n];
    PieceSlice(buf, j, position, n);
    CompareStep(buf.Contents(), mem, at.pos - done, done, n);
  }

  /** evbuffer_ptr_memcmp, as far as whether the bytes are equal. */
  method PtrEqual(buf: Evbuffer, p: Ptr, mem: seq<Byte>, ghost j0: nat) returns (equal: bool)
    requires buf.Wf() && PtrAt(buf, p, j0)
    ensures p.pos >= 0 && (equal <==> Occurs(buf.Contents(), mem, p.pos))
  {
    hide Segment;
    hide Flat;
    hide Chain.Ok;
    buf.Members();
    PtrInside(buf, p, j0);
    if p.pos + |mem| > buf.totalLen {
      return false;
    }
    var at, done := p, 0;
    ghost var j := j0;
    while done < |mem| && at.chain != null
      invariant 0 <= done <= |mem| && j <= |buf.chains| && at.pos == p.pos + done
      invariant done < |mem| ==> PtrAt(buf, at, j)
      invariant buf.Contents()[p.pos..p.pos + done] == mem[..done]
      decreases |buf.chains| - j
    {
      var n, same := CompareChain(buf, at, mem, done, j);
      if !same {
        return false;
      }
      done, at, j := done + n, Ptr(at.pos + n, at.chain.next, 0), j + 1;
    }
    if done < |mem| {
      PtrInside(buf, at, j);
    }
    assert mem[..|mem|] == mem;
    equal := true;
  }

  /** Where a move of a position counts from. */
  function Origin(from: MaybePtr): int
  {
    if from.Some? then from.ptr.pos else 0
  }

  /** evbuffer_ptr_set with EVBUFFER_PTR_SET (from null) or EVBUFFER_PTR_ADD. */
  method PtrSet(buf: Evbuffer, from: MaybePtr, position: nat, ghost j0: nat) returns (ok: bool, p: Ptr, ghost j: nat)
    requires buf.Wf() && (from.Some? ==> PtrAt(buf, from.ptr, j0))
    ensures ok <==> Origin(from) + position < |buf.Contents()|
    ensures p.pos == if ok then Origin(from) + position else -1
    ensures p.chain == null <==> !ok
    ensures ok ==> PtrAt(buf, p, j) && j < |buf.chains| && p.posInChain < |buf.datas[j]|
  {
    hide Segment;
    hide Flat;
    hide Chain.Ok;
    buf.Members();
    PtrStart(buf);
    var at := if from.Some? then from.ptr else Ptr(0, buf.first, 0);
    j := if from.Some? then j0 else 0;
    PtrInside(buf, at, j);
    ghost var target := at.pos + position;
    var chain, within, left := at.chain, at.posInChain, position;
    while chain != null && within + left >= chain.off
      invariant 0 <= left && 0 <= within && PtrAt(buf, Ptr(target - left, chain, within), j)
      decreases |buf.chains| - j
    {
      PtrNext(buf, Ptr(target - left, chain, within), j);
      left, chain, within, j := left - (chain.off - within), chain.next, 0, j + 1;
    }
    PtrInside(buf, Ptr(target - left, chain, within), j);
    if chain != null {
      PieceAt(buf, j);
      buf.ChainAt(j);
      return true, Ptr(at.pos + position, chain, within + left), j;
    }
    return false, Ptr(-1, null, 0), j;
  }

  /** evbuffer_search_range: the first occurrence from start on, if it ends by end. */
  method SearchRange(buf: Evbuffer, what: seq<Byte>, start: Ptr, end: MaybePtr, ghost j0: nat, ghost je: nat)
    returns (pos: Ptr, ghost j: nat)
    requires buf.Wf() && PtrAt(buf, start, j0) && (end.Some? ==> PtrAt(buf, end.ptr, je))
    ensures what == [] ==> pos == start
    ensures what != [] && pos.pos >= 0 ==>
      PtrAt(buf, pos, j) && start.pos <= pos.pos && Occurs(buf.Contents(), what, pos.pos)
    ensures what != [] && pos.pos >= 0 ==> NoMatch(buf.Contents(), what, start.pos, pos.pos)
    ensures what != [] && pos.pos >= 0 && end.Some? ==> pos.pos + |what| <= end.ptr.pos
    ensures what != [] && pos.pos < 0 ==> pos == Ptr(-1, null, 0)
    ensures what != [] && pos.pos < 0 ==>
      NoMatch(buf.Contents(), what, start.pos, if end.Some? then end.ptr.pos - |what| + 1 else |buf.Contents()|)
  {
    hide Segment;
    hide Flat;
    hide Chain.Ok;
    hide Occurs;
    hide NoHit;
    buf.Members();
    PtrInside(buf, start, j0);
    pos, j := start, j0;
    var lastChain := if end.Some? then end.ptr.chain else null;
    if what == [] {
      return;
    }
    while pos.chain != null
      invariant PtrAt(buf, pos, j) && start.pos <= pos.pos
      invariant NoMatch(buf.Contents(), what, start.pos, pos.pos)
      decreases |buf.chains| - j, if j < |buf.chains| then |buf.datas[j]| - pos.posInChain else 0
    {
      PtrNext(buf, pos, j);
      var p := FindInChain(buf, pos, Just(what[0]), j);
      if p >= 0 {
        NoHitNoMatch(buf.Contents(), what, pos.pos, pos.pos + p);
        pos := Ptr(pos.pos + p, pos.chain, pos.posInChain + p);
        var equal := PtrEqual(buf, pos, what, j);
        if equal {
          if end.Some? && pos.pos + |what| > end.ptr.pos {
            return Ptr(-1, null, 0), j;
          }
          return;
        }
        pos := Ptr(pos.pos + 1, pos.chain, pos.posInChain + 1);
        if pos.posInChain == pos.chain.off {
          PtrNext(buf, pos, j);
          pos, j := Ptr(pos.pos, pos.chain.next, 0), j + 1;
        }
      } else {
        NoHitNoMatch(buf.Contents(), what, pos.pos, pos.pos + pos.chain.off - pos.posInChain);
        if pos.chain == lastChain {
          EndInChain(buf, pos, j, end.ptr, je);
          return Ptr(-1, null, 0), j;
        }
        pos, j := Ptr(pos.pos + pos.chain.off - pos.posInChain, pos.chain.next, 0), j + 1;
      }
    }
    PtrInside(buf, pos, j);
    if end.Some? {
      PtrInside(buf, end.ptr, je);
    }
    pos := Ptr(-1, null, 0);
  }

  /** A pointer into the same chain is not past the end of its data. */
  lemma EndInChain(buf: Evbuffer, p: Ptr, j: nat, end: Ptr, je: nat)
    requires buf.Linked() && PtrAt(buf, p, j) && PtrAt(buf, end, je) && p.chain == end.chain != null
    ensures end.pos <= p.pos + p.chain.off - p.posInChain
  {
    hide Flat;
    PtrNext(buf, p, j);
    PtrNext(buf, end, je);
    buf.SameChain(j, je);
  }

  /** The inner loop of evbuffer_strspn with "\r\n": how many bytes from i on are either. */
  method SpanInBytes(s: seq<Byte>) returns (n: nat)
    ensures n <= |s| && (forall i | 0 <= i < n :: Hit(Eol, s[i])) && (n < |s| ==> !Hit(Eol, s[n]))
  {
    n := 0;
    while n < |s| && (s[n] == CR || s[n] == LF)
      invariant 0 <= n <= |s| && forall i | 0 <= i < n :: Hit(Eol, s[i])
    {
      n := n + 1;
    }
  }

  predicate AllHit(w: Want, s: seq<Byte>, from: nat, to: nat)
    requires to <= |s|
  {
    forall i | from <= i < to :: Hit(w, s[i])
  }

  /** evbuffer_strspn over one chain. */
  method SpanInChain(buf: Evbuffer, it: Ptr, ghost j: nat) returns (n: nat)
    requires buf.Wf() && PtrAt(buf, it, j) && it.chain != null
    ensures it.pos >= 0 && it.posInChain + n <= it.chain.off
    ensures it.pos + it.chain.off - it.posInChain <= |buf.Contents()|
    ensures AllHit(Eol, buf.Contents(), it.pos, it.pos + n)
    ensures it.posInChain + n < it.chain.off ==> !Hit(Eol, buf.Contents()[it.pos + n])
  {
    hide Segment;
    hide Flat;
    hide Chain.Ok;
    hide Hit;
    PtrNext(buf, it, j);
    buf.ChainAt(j);
    PieceAt(buf, j);
    var chain, i := it.chain, it.posInChain;
    var s := chain.Read(i, chain.off - i);
    n := SpanInBytes(s);
    ghost var at := |Flat(buf.datas[..j])|;
    forall x | it.pos <= x < it.pos + n ensures Hit(Eol, buf.Contents()[x]) {
      assert buf.Contents()[x] == buf.datas[j][x - at] == s[x - it.pos];
    }
    if n < |s| {
      assert buf.Contents()[at + i + n] == buf.datas[j][i + n] == s[n];
    }
  }

  /** evbuffer_strspn with "\r\n": the length of the run of CR and LF at a position. */
  method Span(buf: Evbuffer, start: Ptr, ghost j0: nat) returns (count: nat)
    requires buf.Wf() && PtrAt(buf, start, j0) && start.chain != null
    ensures start.pos >= 0 && count == EolRun(buf.Contents(), start.pos)
  {
    hide Segment;
    hide Flat;
    hide Chain.Ok;
    hide Hit;
    hide EolRun;
    PtrInside(buf, start, j0);
    var it := start;
    ghost var j := j0;
    count := 0;
    while true
      invariant PtrAt(buf, it, j) && it.chain != null && it.pos == start.pos + count <= |buf.Contents()|
      invariant 0 <= count && AllHit(Eol, buf.Contents(), start.pos, it.pos)
      decreases |buf.chains| - j
    {
      var n := SpanInChain(buf, it, j);
      PtrNext(buf, it, j);
      count := count + n;
      if it.posInChain + n < it.chain.off {
        EolRunIs(buf.Contents(), start.pos, count);
        return;
      }
      var rest := Ptr(it.pos + n, it.chain.next, 0);
      if it.chain.next == null {
        PtrInside(buf, rest, j + 1);
        buf.ChainAt(j);
        EolRunIs(buf.Contents(), start.pos, count);
        return;
      }
      it, j := rest, j + 1;
    }
  }

  /** No line end starts before the stop character of its style. */
  lemma NoHitNoEol(style: Style, s: seq<Byte>, from: nat, to: nat)
    requires to <= |s|
    requires style.LfOnly? || style.CrLf? || style.Any?
    requires NoHit(if style.LfOnly? then Just(LF) else Eol, s, from, to)
    ensures NoEol(style, s, from, to)
  {
    forall i | from <= i < to ensures !EolAt(style, s, i) {
      if i + 2 <= |s| {
        assert s[i..i + 2][0] == s[i];
      }
    }
  }

  lemma OccursFits(s: seq<Byte>, what: seq<Byte>, i: nat)
    requires Occurs(s, what, i) && what != []
    ensures i < |s|
  {
  }

  lemma NoMatchNoEol(s: seq<Byte>, from: nat, to: nat)
    requires to <= |s| && NoMatch(s, [CR, LF], from, to)
    ensures NoEol(CrLfStrict, s, from, to)
  {
  }

  /** evbuffer_search_eol, styles CRLF: a LF, or a CR with a LF after it; a CR alone is
      stepped over. */
  method SearchCrLf(buf: Evbuffer, start: Ptr, ghost j0: nat) returns (pos: int, extra: nat)
    requires buf.Wf() && PtrAt(buf, start, j0)
    ensures 0 <= start.pos <= |buf.Contents()|
    ensures pos == FindEol(CrLf, buf.Contents(), start.pos)
    ensures extra == if pos < 0 then 0 else EolLength(CrLf, buf.Contents(), pos)
  {
    hide Segment;
    hide Flat;
    hide FindEol;
    hide NoHit;
    hide Occurs;
    hide PtrAt;
    PtrInside(buf, start, j0);
    var it := start;
    ghost var j := j0;
    while true
      invariant PtrAt(buf, it, j) && start.pos <= it.pos <= |buf.Contents()|
      invariant NoEol(CrLf, buf.Contents(), start.pos, it.pos)
      decreases |buf.Contents()| - it.pos
    {
      var r, at, jj := FindFrom(buf, it, Eol, j);
      if r < 0 {
        NoHitNoEol(CrLf, buf.Contents(), it.pos, |buf.Contents()|);
        FindEolIs(CrLf, buf.Contents(), start.pos, |buf.Contents()|);
        return -1, 0;
      }
      NoHitNoEol(CrLf, buf.Contents(), it.pos, r);
      var c := CharAt(buf, at, jj);
      if c == LF {
        FindEolIs(CrLf, buf.Contents(), start.pos, r);
        return r, 1;
      }
      var equal := PtrEqual(buf, at, [CR, LF], jj);
      if equal {
        FindEolIs(CrLf, buf.Contents(), start.pos, r);
        return r, 2;
      }
      var ok, next, jn := PtrSet(buf, Some(at), 1, jj);
      if !ok {
        FindEolIs(CrLf, buf.Contents(), start.pos, |buf.Contents()|);
        return -1, 0;
      }
      it, j := next, jn;
    }
  }

  /** evbuffer_getchr. */
  method CharAt(buf: Evbuffer, it: Ptr, ghost j: nat) returns (c: Byte)
    requires buf.Wf() && PtrAt(buf, it, j) && it.chain != null && it.posInChain < it.chain.off
    ensures 0 <= it.pos < |buf.Contents()| && c == buf.Contents()[it.pos]
  {
    hide Segment;
    hide Flat;
    hide Chain.Ok;
    buf.ChainAt(j);
    PieceSlice(buf, j, it.posInChain, 1);
    var s := it.chain.Read(it.posInChain, 1);
    c := s[0];
    assert buf.Contents()[it.pos] == buf.Contents()[it.pos..it.pos + 1][0];
  }

  /** evbuffer_search_eol: the first line end from a position on, and its length. */
  method SearchEol(buf: Evbuffer, style: Style, from: MaybePtr, ghost j0: nat) returns (pos: int, extra: nat)
    requires buf.Wf() && (from.Some? ==> PtrAt(buf, from.ptr, j0))
    ensures var start := if from.Some? then from.ptr.pos else 0;
      && 0 <= start <= |buf.Contents()|
      && pos == FindEol(style, buf.Contents(), start)
      && extra == if pos < 0 then 0 else EolLength(style, buf.Contents(), pos)
  {
    hide Segment;
    hide Flat;
    hide FindEol;
    hide NoHit;
    hide NoMatch;
    hide Occurs;
    hide PtrAt;
    PtrStart(buf);
    var it := if from.Some? then from.ptr else Ptr(0, buf.first, 0);
    ghost var j := if from.Some? then j0 else 0;
    PtrInside(buf, it, j);
    ghost var all := buf.Contents();
    match style
    case CrLf =>
      pos, extra := SearchCrLf(buf, it, j);
    case CrLfStrict =>
      var p, jp := SearchRange(buf, [CR, LF], it, None, j, 0);
      pos, extra := p.pos, if p.pos < 0 then 0 else 2;
      if pos >= 0 {
        OccursFits(all, [CR, LF], pos);
      }
      NoMatchNoEol(all, it.pos, if pos < 0 then |all| else pos);
      FindEolIs(style, all, it.pos, if pos < 0 then |all| else pos);
    case Any =>
      var r, at, jat := FindFrom(buf, it, Eol, j);
      NoHitNoEol(style, all, it.pos, if r < 0 then |all| else r);
      FindEolIs(style, all, it.pos, if r < 0 then |all| else r);
      pos, extra := -1, 0;
      if r >= 0 {
        pos := r;
        extra := Span(buf, at, jat);
      }
    case LfOnly =>
      var r, at, jat := FindFrom(buf, it, Just(LF), j);
      NoHitNoEol(style, all, it.pos, if r < 0 then |all| else r);
      FindEolIs(style, all, it.pos, if r < 0 then |all| else r);
      pos, extra := if r < 0 then -1 else r, if r < 0 then 0 else 1;
  }

  datatype MaybeLine = NoLine | Got(line: seq<Byte>)

  /** evbuffer_readln: takes the first line and its end off the buffer. */
  method Readln(buf: Evbuffer, style: Style) returns (r: MaybeLine)
    requires buf.Valid()
    modifies buf, buf.cells
    ensures buf.Valid() && buf.cells <= old(buf.cells)
    ensures buf.freezeStart == old(buf.freezeStart) && buf.freezeEnd == old(buf.freezeEnd)
    ensures var s := old(buf.Contents());
      var at := FindEol(style, s, 0);
      if at < 0 || old(buf.freezeStart) then r == NoLine && buf.Contents() == s
      else r == Got(s[..at]) && buf.Contents() == s[at + EolLength(style, s, at)..]
  {
    hide Segment;
    hide Flat;
    hide FindEol;
    hide EolLength;
    hide LastWithData;
    if buf.freezeStart {
      return NoLine;
    }
    ghost var s := buf.Contents();
    var pos, extra := SearchEol(buf, style, None, 0);
    if pos < 0 {
      return NoLine;
    }
    var n, line := buf.Remove(pos);
    assert s[..pos] == line && s[pos..] == buf.Contents();
    var d := buf.Drain(extra);
    r := Got(line);
  }

  /** Reading until there is no line gives all the lines, and leaves the remainder. */
  method ReadLines(buf: Evbuffer, style: Style) returns (lines: seq<seq<Byte>>)
    requires buf.Valid() && !buf.freezeStart
    modifies buf, buf.cells
    ensures buf.Valid() && buf.Contents() == Remainder(style, old(buf.Contents()))
    ensures var all := SplitLines(style, old(buf.Contents()));
      |lines| == |all| && forall i | 0 <= i < |all| :: lines[i] == all[i].text
  {
    hide SplitLines;
    hide Remainder;
    hide Evbuffer.Valid;
    hide Flat;
    hide FindEol;
    hide EolLength;
    hide EolAt;
    hide NoEol;
    hide IsLine;
    lines := [];
    ghost var s := buf.Contents();
    ghost var texts := [];
    while true
      invariant buf.Valid() && !buf.freezeStart && buf.cells <= old(buf.cells)
      invariant SplitLines(style, s) == texts + SplitLines(style, buf.Contents())
      invariant Remainder(style, s) == Remainder(style, buf.Contents())
      invariant |lines| == |texts| && forall i | 0 <= i < |texts| :: lines[i] == texts[i].text
      decreases |buf.Contents()|
    {
      ghost var rest := buf.Contents();
      SplitFirst(style, rest);
      RemainderFirst(style, rest);
      var r := Readln(buf, style);
      if r.NoLine? {
        return;
      }
      ghost var at := FindEol(style, rest, 0);
      lines := lines + [r.line];
      ghost var line := Line(rest[..at], rest[at..at + EolLength(style, rest, at)]);
      assert texts + ([line] + SplitLines(style, buf.Contents()))
          == (texts + [line]) + SplitLines(style, buf.Contents());
      texts := texts + [line];
    }
  }
}
