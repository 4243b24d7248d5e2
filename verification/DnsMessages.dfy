/** Messages with several names, and queries (deps/libevent/evdns.c). */
module DnsMessages {
  import opened Bytes
  import opened DnsNames
  import opened DnsEncode

  /** The parser, started at a place, returns a name and goes on at next. */
  ghost predicate ParsesTo(b: seq<Byte>, n: nat, at: nat, name: seq<Byte>, next: nat)
    requires n <= |b|
  {
    forall room: nat :: Parse(b, n, at, 0, -1, [], room) == if |name| < room then Name(name, next) else Bad
  }

  /** Where a name goes on does not depend on what comes after. */
  lemma {:induction false} SkipGrow(b: seq<Byte>, n: nat, at: nat, name: seq<Byte>, h: nat, b': seq<Byte>, n': nat)
    requires n <= |b| && n <= n' <= |b'| && b[..n] == b'[..n] && Spells(b, n, at, name, h)
    ensures Skip(b', n', at) == Skip(b, n, at)
    decreases |name|
  {
    assert b[at] == b[..n][at] == b'[at];
    if 0 < b[at] <= MAX_LABEL {
      var len := b[at];
      SkipGrow(b, n, at + 1 + len, if |name| == len then [] else name[len + 1..], h, b', n');
    }
  }

  lemma SpellsParses(b: seq<Byte>, n: nat, at: nat, name: seq<Byte>)
    requires n <= |b| && Spells(b, n, at, name, at)
    ensures ParsesTo(b, n, at, name, Skip(b, n, at))
  {
    hide Spells;
    SpellsReads(b, n, at, name, at);
    SpellsInside(b, n, at, name, at);
    hide Reads;
    forall room: nat
      ensures Parse(b, n, at, 0, -1, [], room) == if |name| < room then Name(name, Skip(b, n, at)) else Bad
    {
      ParseReads(b, n, at, name, at, 0, -1, [], room);
    }
  }

  lemma TableGrow(labels: seq<Entry>, b: seq<Byte>, n: nat, b': seq<Byte>, n': nat)
    requires n <= |b| && n <= n' <= |b'| && b[..n] == b'[..n] && TableOk(labels, b, n)
    ensures TableOk(labels, b', n')
  {
    forall e | e in labels ensures e.pos < n' && Spells(b', n', e.pos, Upto(e.v), e.pos) {
      SpellsGrow(b, n, e.pos, Upto(e.v), e.pos, b', n');
    }
  }

  /** A name, and the bytes that follow it in the message. */
  datatype Piece = Piece(name: seq<Byte>, after: seq<Byte>)

  /** The names written so far. */
  ghost predicate AllWritten(b: seq<Byte>, j: nat, pieces: seq<Piece>, starts: seq<nat>, ends: seq<nat>)
  {
    && j <= |b| && |starts| == |ends| <= |pieces|
    && forall i | 0 <= i < |starts| ::
         && Spells(b, j, starts[i], Upto(pieces[i].name), starts[i])
         && (pieces[i].name == [] || NoEmptyLabel(pieces[i].name) ==> Skip(b, j, starts[i]) == ends[i])
  }

  lemma AllWrittenGrow(b: seq<Byte>, j: nat, pieces: seq<Piece>, starts: seq<nat>, ends: seq<nat>, b': seq<Byte>,
        j': nat)
    requires AllWritten(b, j, pieces, starts, ends) && j <= j' <= |b'| && b[..j] == b'[..j]
    ensures AllWritten(b', j', pieces, starts, ends)
  {
    forall i | 0 <= i < |starts|
      ensures Spells(b', j', starts[i], Upto(pieces[i].name), starts[i])
      ensures Skip(b', j', starts[i]) == Skip(b, j, starts[i])
    {
      SpellsGrow(b, j, starts[i], Upto(pieces[i].name), starts[i], b', j');
      SkipGrow(b, j, starts[i], Upto(pieces[i].name), starts[i], b', j');
    }
  }

  /** The names lie one after another, each with its bytes after it. */
  ghost predicate Laid(b: seq<Byte>, start: nat, j: nat, pieces: seq<Piece>, starts: seq<nat>, ends: seq<nat>)
  {
    && j <= |b| && |starts| == |ends| <= |pieces|
    && (forall i | 0 <= i < |starts| :: starts[i] == if i == 0 then start else ends[i - 1] + |pieces[i - 1].after|)
    && (forall i | 0 <= i < |starts| ::
          ends[i] + |pieces[i].after| <= j && b[ends[i]..ends[i] + |pieces[i].after|] == pieces[i].after)
    && j == if |starts| == 0 then start else ends[|starts| - 1] + |pieces[|starts| - 1].after|
  }

  lemma LaidMore(b: seq<Byte>, start: nat, j: nat, pieces: seq<Piece>, starts: seq<nat>, ends: seq<nat>, b': seq<Byte>,
        end: nat)
    requires Laid(b, start, j, pieces, starts, ends) && |starts| < |pieces| && j <= end
    requires end + |pieces[|starts|].after| <= |b'| && b[..j] == b'[..j]
    requires b'[end..end + |pieces[|starts|].after|] == pieces[|starts|].after
    ensures Laid(b', start, end + |pieces[|starts|].after|, pieces, starts + [j], ends + [end])
  {
    var starts', ends' := starts + [j], ends + [end];
    forall i | 0 <= i < |starts'|
      ensures starts'[i] == if i == 0 then start else ends'[i - 1] + |pieces[i - 1].after|
    {
      if i < |starts| {
        assert starts'[i] == starts[i] && (i > 0 ==> ends'[i - 1] == ends[i - 1]);
      }
    }
    forall i | 0 <= i < |starts'|
      ensures ends'[i] + |pieces[i].after| <= end + |pieces[|starts|].after|
      ensures b'[ends'[i]..ends'[i] + |pieces[i].after|] == pieces[i].after
    {
      if i < |starts| {
        assert ends'[i] == ends[i];
        SamePrefix(b, b', j, ends[i], ends[i] + |pieces[i].after|);
      }
    }
  }

  /** Room for every name whole. */
  function Size(pieces: seq<Piece>): nat
  {
    if pieces == [] then 0
    else
      var last := pieces[|pieces| - 1];
      Size(pieces[..|pieces| - 1]) + |last.name| + 2 + |last.after|
  }

  predicate Fits(piece: Piece)
  {
    |piece.name| <= MAX_NAME && ShortLabels(piece.name)
  }

  method PutBytes(buf: array<Byte>, j: nat, bytes: seq<Byte>)
    requires j + |bytes| <= buf.Length
    modifies buf
    ensures buf[..j] == old(buf[..j]) && buf[j..j + |bytes|] == bytes
    ensures buf[j + |bytes|..] == old(buf[j + |bytes|..])
  {
    forall i | 0 <= i < |bytes| {
      buf[j + i] := bytes[i];
    }
  }

  /** One more name, and the bytes after it. */
  method WriteOne(buf: array<Byte>, bufLen: nat, table: Table, j: nat, pieces: seq<Piece>, i: nat,
        ghost starts: seq<nat>, ghost ends: seq<nat>)
    returns (ok: bool, end: nat, next: nat)
    requires bufLen < buf.Length && j <= bufLen && i < |pieces| && 0 !in pieces[i].name
    requires AllWritten(buf[..], j, pieces, starts, ends)
    modifies buf, table
    ensures ok ==> j < end <= next == end + |pieces[i].after| <= bufLen
    ensures ok ==> buf[..j] == old(buf[..j]) && buf[end..next] == pieces[i].after
    ensures ok ==> AllWritten(buf[..], next, pieces, starts, ends)
    ensures ok && |starts| == i && j <= 0x4000 && old(TableOk(table.labels, buf[..], j)) ==>
      TableOk(table.labels, buf[..], next) && AllWritten(buf[..], next, pieces, starts + [j], ends + [end])
    ensures Fits(pieces[i]) && j + |pieces[i].name| + 2 + |pieces[i].after| <= bufLen ==>
      ok && next <= j + |pieces[i].name| + 2 + |pieces[i].after|
  {
    hide Spells;
    hide TableOk;
    hide AllWritten;
    hide NoEmptyLabel;
    hide Known;
    ghost var b := buf[..];
    ghost var good := |starts| == i && j <= 0x4000 && TableOk(table.labels, b, j);
    if good {
      EntriesBefore(table.labels, b, j);
      KnownBefore(table.labels, pieces[i].name, j);
    }
    var r := DnsnameToLabels(buf, bufLen, j, pieces[i].name, table);
    if r < 0 || r + |pieces[i].after| > bufLen {
      return false, 0, j;
    }
    ghost var c := buf[..];
    assert b[..j] == c[..j];
    AllWrittenGrow(b, j, pieces, starts, ends, c, r);
    PutBytes(buf, r, pieces[i].after);
    end, next, ok := r, r + |pieces[i].after|, true;
    assert c[..r] == buf[..][..r];
    AllWrittenGrow(c, r, pieces, starts, ends, buf[..], next);
    if good {
      OneMoreWritten(c, r, pieces, starts, ends, j, r);
      TableGrow(table.labels, c, r, buf[..], next);
      AllWrittenGrow(c, r, pieces, starts + [j], ends + [end], buf[..], next);
    }
  }

  lemma EntriesBefore(labels: seq<Entry>, b: seq<Byte>, j: nat)
    requires j <= |b| && TableOk(labels, b, j)
    ensures forall e | e in labels :: e.pos < j
  {
  }

  lemma OneMoreWritten(b: seq<Byte>, j: nat, pieces: seq<Piece>, starts: seq<nat>, ends: seq<nat>, start: nat, end: nat)
    requires AllWritten(b, j, pieces, starts, ends) && |starts| < |pieces|
    requires Spells(b, j, start, Upto(pieces[|starts|].name), start)
    requires pieces[|starts|].name == [] || NoEmptyLabel(pieces[|starts|].name) ==> Skip(b, j, start) == end
    ensures AllWritten(b, j, pieces, starts + [start], ends + [end])
  {
  }

  /** The part of the names that start up to 0x4000, where a pointer can lead. */
  ghost predicate Near(starts: seq<nat>, ends: seq<nat>, near: seq<nat>, nearEnds: seq<nat>)
  {
    && |near| == |nearEnds| <= |starts| == |ends|
    && near == starts[..|near|] && nearEnds == ends[..|near|]
    && forall i | |near| <= i < |starts| :: starts[i] > 0x4000
  }

  /** What writing names keeps. */
  ghost predicate Progress(labels: seq<Entry>, b: seq<Byte>, start: nat, j: nat, pieces: seq<Piece>,
        starts: seq<nat>, ends: seq<nat>, near: seq<nat>, nearEnds: seq<nat>)
  {
    && j <= |b| && Laid(b, start, j, pieces, starts, ends)
    && Near(starts, ends, near, nearEnds) && AllWritten(b, j, pieces, near, nearEnds)
    && if |near| == |starts| then TableOk(labels, b, j) else j > 0x4000
  }

  lemma ProgressNone(b: seq<Byte>, j: nat, pieces: seq<Piece>)
    requires j <= |b|
    ensures Progress([], b, j, j, pieces, [], [], [], []) && Size([]) == 0
  {
  }

  lemma ProgressParts(labels: seq<Entry>, b: seq<Byte>, start: nat, j: nat, pieces: seq<Piece>,
        starts: seq<nat>, ends: seq<nat>, near: seq<nat>, nearEnds: seq<nat>)
    requires Progress(labels, b, start, j, pieces, starts, ends, near, nearEnds)
    ensures AllWritten(b, j, pieces, near, nearEnds) && |near| <= |starts| == |ends| <= |pieces|
    ensures |near| == |starts| ==> TableOk(labels, b, j)
  {
    hide AllWritten;
    hide TableOk;
  }

  lemma ProgressMore(labels: seq<Entry>, b: seq<Byte>, start: nat, j: nat, pieces: seq<Piece>,
        starts: seq<nat>, ends: seq<nat>, near: seq<nat>, nearEnds: seq<nat>,
        labels': seq<Entry>, b': seq<Byte>, end: nat, next: nat)
    returns (near': seq<nat>, nearEnds': seq<nat>)
    requires Progress(labels, b, start, j, pieces, starts, ends, near, nearEnds) && |starts| < |pieces|
    requires j < end <= next == end + |pieces[|starts|].after| <= |b'|
    requires b[..j] == b'[..j] && b'[end..next] == pieces[|starts|].after
    requires AllWritten(b', next, pieces, near, nearEnds)
    requires |near| == |starts| && j <= 0x4000 ==>
      TableOk(labels', b', next) && AllWritten(b', next, pieces, near + [j], nearEnds + [end])
    ensures Progress(labels', b', start, next, pieces, starts + [j], ends + [end], near', nearEnds')
  {
    hide AllWritten;
    hide TableOk;
    LaidMore(b, start, j, pieces, starts, ends, b', end);
    hide Laid;
    near', nearEnds' := near, nearEnds;
    if |near| == |starts| && j <= 0x4000 {
      near', nearEnds' := near + [j], nearEnds + [end];
    }
  }

  /** Each name that starts up to 0x4000 parses to itself exactly if it survives. */
  lemma ProgressParses(labels: seq<Entry>, b: seq<Byte>, start: nat, j: nat, pieces: seq<Piece>,
        starts: seq<nat>, ends: seq<nat>, near: seq<nat>, nearEnds: seq<nat>)
    requires Progress(labels, b, start, j, pieces, starts, ends, near, nearEnds)
    ensures j <= |b| && |starts| == |ends| <= |pieces| && Laid(b, start, j, pieces, starts, ends)
    ensures forall i | 0 <= i < |starts| && starts[i] <= 0x4000 ::
      && (pieces[i].name == [] || NoEmptyLabel(pieces[i].name) ==> ParsesTo(b, j, starts[i], pieces[i].name, ends[i]))
      && (ParsesTo(b, j, starts[i], pieces[i].name, ends[i]) ==> pieces[i].name == [] || NoEmptyLabel(pieces[i].name))
  {
    hide AllWritten;
    hide TableOk;
    hide NoEmptyLabel;
    hide ParsesTo;
    AllParse(b, j, pieces, near, nearEnds);
  }

  /** Writes names in turn, each with bytes after it, sharing one table of suffixes.  Each
      that does not start beyond 0x4000 then parses, from where it starts, to itself:
      exactly when it is empty or has no empty label. */
  method WriteAll(buf: array<Byte>, bufLen: nat, start: nat, pieces: seq<Piece>)
    returns (ok: bool, starts: seq<nat>, ends: seq<nat>, end: nat)
    requires bufLen < buf.Length && start <= bufLen
    requires forall piece | piece in pieces :: 0 !in piece.name
    modifies buf
    ensures ok ==> |starts| == |pieces| && end <= bufLen && Laid(buf[..], start, end, pieces, starts, ends)
    ensures ok ==> forall i | 0 <= i < |pieces| && starts[i] <= 0x4000 ::
      && (pieces[i].name == [] || NoEmptyLabel(pieces[i].name) ==>
            ParsesTo(buf[..], end, starts[i], pieces[i].name, ends[i]))
      && (ParsesTo(buf[..], end, starts[i], pieces[i].name, ends[i]) ==>
            pieces[i].name == [] || NoEmptyLabel(pieces[i].name))
    ensures (forall piece | piece in pieces :: Fits(piece)) && start + Size(pieces) <= bufLen ==> ok
  {
    hide NoEmptyLabel;
    hide ParsesTo;
    hide Laid;
    hide Fits;
    hide Size;
    hide Progress;
    var table := new Table();
    starts, ends, end := [], [], start;
    ProgressNone(buf[..], start, pieces);
    var i := 0;
    ghost var near, nearEnds := [], [];
    while i < |pieces|
      invariant 0 <= i <= |pieces| && end <= bufLen && |starts| == |ends| == i && fresh(table)
      invariant Progress(table.labels, buf[..], start, end, pieces, starts, ends, near, nearEnds)
      invariant (forall piece | piece in pieces :: Fits(piece)) ==> end <= start + Size(pieces[..i])
    {
      SizeMore(pieces, i);
      ghost var b, labels := buf[..], table.labels;
      ProgressParts(labels, b, start, end, pieces, starts, ends, near, nearEnds);
      var e, next;
      ok, e, next := WriteOne(buf, bufLen, table, end, pieces, i, near, nearEnds);
      if !ok {
        return;
      }
      assert b[..end] == buf[..][..end] && buf[..][e..next] == pieces[i].after;
      near, nearEnds := ProgressMore(labels, b, start, end, pieces, starts, ends, near, nearEnds,
                                     table.labels, buf[..], e, next);
      starts, ends, end, i := starts + [end], ends + [e], next, i + 1;
    }
    ok := true;
    ProgressParses(table.labels, buf[..], start, end, pieces, starts, ends, near, nearEnds);
  }

  lemma TableEmpty(b: seq<Byte>, j: nat)
    requires j <= |b|
    ensures TableOk([], b, j)
  {
  }

  lemma {:induction false} SizeMore(pieces: seq<Piece>, i: nat)
    requires i < |pieces|
    ensures Size(pieces[..i]) + |pieces[i].name| + 2 + |pieces[i].after| == Size(pieces[..i + 1]) <= Size(pieces)
    decreases |pieces|
  {
    assert pieces[..i + 1][..i] == pieces[..i];
    if i + 1 < |pieces| {
      var less := pieces[..|pieces| - 1];
      SizeMore(less, i);
      assert less[..i + 1] == pieces[..i + 1];
    } else {
      assert pieces[..i + 1] == pieces;
    }
  }

  lemma AllParse(b: seq<Byte>, n: nat, pieces: seq<Piece>, starts: seq<nat>, ends: seq<nat>)
    requires AllWritten(b, n, pieces, starts, ends)
    ensures forall i | 0 <= i < |starts| ::
      && (pieces[i].name == [] || NoEmptyLabel(pieces[i].name) ==> ParsesTo(b, n, starts[i], pieces[i].name, ends[i]))
      && (ParsesTo(b, n, starts[i], pieces[i].name, ends[i]) ==> pieces[i].name == [] || NoEmptyLabel(pieces[i].name))
  {
    hide Spells;
    hide NoEmptyLabel;
    hide Upto;
    forall i | 0 <= i < |starts|
      ensures pieces[i].name == [] || NoEmptyLabel(pieces[i].name) ==>
        ParsesTo(b, n, starts[i], pieces[i].name, ends[i])
      ensures ParsesTo(b, n, starts[i], pieces[i].name, ends[i]) ==>
        pieces[i].name == [] || NoEmptyLabel(pieces[i].name)
    {
      var name := pieces[i].name;
      SpellsParses(b, n, starts[i], Upto(name));
      UptoIsName(name);
      assert Parse(b, n, starts[i], 0, -1, [], |name| + |Upto(name)| + 1) == Name(Upto(name), Skip(b, n, starts[i]));
    }
  }

  // Queries.

  /** Two bytes, the high one first. */
  function Word(b: seq<Byte>, j: nat): (w: nat)
    requires j + 2 <= |b|
    ensures w < 0x10000
  {
    var high: nat := b[j];
    high * 256 + b[j + 1]
  }

  predicate IsWord(w: nat)
  {
    w < 0x10000
  }

  datatype Question = Question(name: seq<Byte>, kind: nat, class_: nat)
  datatype Request = Failed | NotImplemented | Request(id: nat, flags: nat, questions: seq<Question>)

  /** A C string ends at the first zero. */
  function CString(s: seq<Byte>): (r: seq<Byte>)
    ensures r <= s && (0 !in s ==> r == s) && 0 !in r && (|r| < |s| ==> s[|r|] == 0)
  {
    if s == [] || s[0] == 0 then [] else [s[0]] + CString(s[1..])
  }

  const NAME_ROOM := 256

  /** The bits RD and CD. */
  function Preserved(flags: nat): (r: nat)
    ensures r < 0x800 && (r == 0 || r == 0x10 || r == 0x100 || r == 0x110)
    ensures r / 0x100 % 2 == flags / 0x100 % 2 && r / 0x10 % 2 == flags / 0x10 % 2
  {
    flags / 256 % 2 * 256 + flags / 16 % 2 * 16
  }

  /** The questions of a request, from j on. */
  function Questions(b: seq<Byte>, n: nat, j: nat, count: nat): (r: (bool, seq<Question>))
    requires n <= |b|
    ensures r.0 ==> |r.1| == count
    decreases count
  {
    if count == 0 then
      (true, [])
    else
      var name := Parse(b, n, j, 0, -1, [], NAME_ROOM);
      if !name.Name? || name.next + 4 > n then
        (false, [])
      else
        var q := Question(CString(name.text), Word(b, name.next), Word(b, name.next + 2));
        var rest := Questions(b, n, name.next + 4, count - 1);
        (rest.0, [q] + rest.1)
  }

  /** A bit of 0x7800, where the kind of query is. */
  predicate HasOpcode(flags: nat): (r: bool)
    ensures flags < 0x10000 ==> (r <==> flags % 0x8000 >= 0x800)
  {
    flags / 0x800 % 16 != 0
  }

  /** The test for queries that are not standard looks at the flags that are preserved. */
  function ParseRequest(b: seq<Byte>, n: nat): Request
    requires n <= |b|
  {
    if n < 12 || Word(b, 2) >= 0x8000 then
      Failed
    else
      var q := Questions(b, n, 12, Word(b, 4));
      if !q.0 then Failed
      else if HasOpcode(Preserved(Word(b, 2))) then NotImplemented
      else Request(Word(b, 0), Preserved(Word(b, 2)), q.1)
  }

  /** Whatever kind of query a packet is, it is handed on exactly if it is whole, not an
      answer, and its questions can be read; it is never refused as not implemented. */
  lemma NeverNotImplemented(b: seq<Byte>, n: nat)
    requires n <= |b|
    ensures ParseRequest(b, n) != NotImplemented
    ensures ParseRequest(b, n).Request? <==> n >= 12 && b[2] < 128 && Questions(b, n, 12, Word(b, 4)).0
  {
    hide Questions;
    if n >= 12 {
      var high: nat := b[2];
      assert Word(b, 2) == high * 256 + b[3];
    }
  }

  /** A query with all four bits set, and no questions. */
  lemma OpcodeHandedOn()
    ensures HasOpcode(Word([0, 0, 0x78, 0, 0, 0, 0, 0, 0, 0, 0, 0], 2))
    ensures ParseRequest([0, 0, 0x78, 0, 0, 0, 0, 0, 0, 0, 0, 0], 12) == Request(0, 0, [])
  {
    var b := [0, 0, 0x78, 0, 0, 0, 0, 0, 0, 0, 0, 0];
    assert Word(b, 2) == 0x7800 && Word(b, 4) == 0 && Word(b, 0) == 0;
    assert Preserved(0x7800) == 0;
    assert Questions(b, 12, 12, 0) == (true, []);
  }

  /** GET16. */
  method Get16(b: seq<Byte>, n: nat, j: nat) returns (ok: bool, w: nat, j': nat)
    requires n <= |b|
    ensures ok == (j + 2 <= n) && (ok ==> w == Word(b, j) && j' == j + 2)
  {
    if j + 2 > n {
      return false, 0, j;
    }
    return true, Word(b, j), j + 2;
  }

  /** The loop over the questions. */
  method TakeQuestions(packet: seq<Byte>, length: nat, start: nat, questions: nat)
    returns (ok: bool, qs: seq<Question>)
    requires length <= |packet|
    ensures ok == Questions(packet, length, start, questions).0
    ensures ok ==> qs == Questions(packet, length, start, questions).1
  {
    hide Parse;
    hide Word;
    hide CString;
    qs := [];
    var i, j := 0, start;
    while i < questions
      invariant 0 <= i <= questions && 0 <= j
      invariant Questions(packet, length, start, questions).0 == Questions(packet, length, j, questions - i).0
      invariant Questions(packet, length, start, questions).1 == qs + Questions(packet, length, j, questions - i).1
    {
      var name := NameParse(packet, length, j, NAME_ROOM);
      if !name.Name? {
        return false, qs;
      }
      var kind, class_;
      ok, kind, j := Get16(packet, length, name.next);
      if !ok { return; }
      ok, class_, j := Get16(packet, length, j);
      if !ok { return; }
      var q := Question(CString(name.text), kind, class_);
      ghost var rest := Questions(packet, length, j, questions - i - 1).1;
      assert qs + ([q] + rest) == qs + [q] + rest;
      qs, i := qs + [q], i + 1;
    }
    ok := true;
  }

  /** request_parse: what it hands to the server's callback, or its failure. */
  method RequestParse(packet: seq<Byte>, length: nat) returns (r: Request)
    requires length <= |packet|
    ensures r == ParseRequest(packet, length)
  {
    hide Word;
    hide Questions;
    hide Preserved;
    hide HasOpcode;
    var ok, id, flags, questions, ignored;
    var j := 0;
    ok, id, j := Get16(packet, length, j);
    if !ok { return Failed; }
    ok, flags, j := Get16(packet, length, j);
    if !ok { return Failed; }
    ok, questions, j := Get16(packet, length, j);
    if !ok { return Failed; }
    ok, ignored, j := Get16(packet, length, j);
    if !ok { return Failed; }
    ok, ignored, j := Get16(packet, length, j);
    if !ok { return Failed; }
    ok, ignored, j := Get16(packet, length, j);
    if !ok { return Failed; }
    if flags >= 0x8000 {
      return Failed;
    }
    flags := Preserved(flags);
    var qs;
    ok, qs := TakeQuestions(packet, length, j, questions);
    if !ok { return Failed; }
    r := if HasOpcode(flags) then NotImplemented else Request(id, flags, qs);
  }

  /** APPEND16. */
  method Append16(buf: array<Byte>, bufLen: nat, j: nat, w: nat) returns (ok: bool, j': nat)
    requires bufLen < buf.Length && IsWord(w)
    modifies buf
    ensures ok == (j + 2 <= bufLen)
    ensures ok ==> j' == j + 2 && buf[..j] == old(buf[..j]) && Word(buf[..], j) == w
    ensures !ok ==> buf[..] == old(buf[..])
  {
    if j + 2 > bufLen {
      return false, j;
    }
    buf[j], buf[j + 1] := w / 256, w % 256;
    assert buf[..][j] == w / 256 && buf[..][j + 1] == w % 256;
    return true, j + 2;
  }

  /** The first words of a message. */
  ghost predicate Header(b: seq<Byte>, n: nat, words: seq<nat>)
  {
    n == 2 * |words| <= |b| && forall i | 0 <= i < |words| :: Word(b, 2 * i) == words[i]
  }

  lemma HeaderMore(b: seq<Byte>, n: nat, words: seq<nat>, b': seq<Byte>, w: nat)
    requires Header(b, n, words) && n + 2 <= |b'| && b[..n] == b'[..n] && Word(b', n) == w
    ensures Header(b', n + 2, words + [w])
  {
    HeaderKept(b, n, words, b');
  }

  lemma HeaderKept(b: seq<Byte>, n: nat, words: seq<nat>, b': seq<Byte>)
    requires Header(b, n, words) && n <= |b'| && b[..n] == b'[..n]
    ensures Header(b', n, words)
  {
    forall i | 0 <= i < |words| ensures Word(b', 2 * i) == words[i] {
      assert b[..n][2 * i] == b'[..n][2 * i] && b[..n][2 * i + 1] == b'[..n][2 * i + 1];
    }
  }

  /** The header of a query. */
  method QueryHeader(buf: array<Byte>, bufLen: nat, id: nat) returns (ok: bool)
    requires bufLen < buf.Length && IsWord(id)
    modifies buf
    ensures ok == (12 <= bufLen)
    ensures ok ==> Header(buf[..], 12, [id, 0x0100, 1, 0, 0, 0])
  {
    hide Header;
    var words := [id, 0x0100, 1, 0, 0, 0];
    var i, j := 0, 0;
    HeaderNone(buf[..]);
    while i < 6
      invariant 0 <= i <= 6 && j == 2 * i && (i > 0 ==> j <= bufLen) && Header(buf[..], j, words[..i])
    {
      ghost var b := buf[..];
      ok, j := Append16(buf, bufLen, j, words[i]);
      if !ok {
        return;
      }
      assert b[..2 * i] == buf[..][..2 * i] && words[..i + 1] == words[..i] + [words[i]];
      HeaderMore(b, 2 * i, words[..i], buf[..], words[i]);
      i := i + 1;
    }
    assert words[..6] == words;
    ok := true;
  }

  lemma HeaderNone(b: seq<Byte>)
    ensures Header(b, 0, [])
  {
  }

  /** evdns_request_data_build: what it writes parses back to the same id, name, type and
      class, if the name is empty or has no empty label. */
  method RequestDataBuild(name: seq<Byte>, id: nat, kind: nat, class_: nat, buf: array<Byte>, bufLen: nat)
    returns (r: int)
    requires bufLen < buf.Length && 0 !in name
    requires IsWord(id) && IsWord(kind) && IsWord(class_)
    modifies buf
    ensures r >= 0 ==> r <= bufLen
    ensures r >= 0 && (name == [] || NoEmptyLabel(name)) ==>
      ParseRequest(buf[..], r) == Request(id, 0x0100, [Question(name, kind, class_)])
    ensures |name| <= MAX_NAME && ShortLabels(name) && |name| + 18 <= bufLen ==> 0 <= r <= |name| + 18
  {
    hide Header;
    hide Encoded;
    hide Spells;
    hide ParseRequest;
    var ok := QueryHeader(buf, bufLen, id);
    if !ok {
      return -1;
    }
    ghost var b := buf[..];
    TableEmpty(buf[..], 12);
    KnownBefore([], name, 0);
    r := DnsnameToLabels(buf, bufLen, 12, name, null);
    if r < 0 {
      return;
    }
    ghost var c, at := buf[..], r;
    assert b[..12] == c[..12];
    HeaderKept(b, 12, [id, 0x0100, 1, 0, 0, 0], c);
    EncodedEnd([], c, 12, name, r);
    ok, r := Append16(buf, bufLen, r, kind);
    if !ok {
      return -1;
    }
    ghost var d := buf[..];
    assert c[..at] == d[..at];
    ok, r := Append16(buf, bufLen, r, class_);
    if !ok {
      return -1;
    }
    assert d[..at + 2] == buf[..][..at + 2];
    if name == [] || NoEmptyLabel(name) {
      WordKept(d, at, buf[..], at + 2);
      assert c[..at] == d[..at] == d[..at + 2][..at] == buf[..][..at];
      QueryParses(c, at, name, buf[..], id, kind, class_);
    }
  }

  lemma EncodedEnd(labels: seq<Entry>, b: seq<Byte>, start: nat, name: seq<Byte>, r: nat)
    requires Encoded(labels, b, start, name, r)
    ensures start < r <= |b|
  {
  }

  lemma WordKept(b: seq<Byte>, j: nat, b': seq<Byte>, n: nat)
    requires j + 2 <= n <= |b| && n <= |b'| && b[..n] == b'[..n]
    ensures Word(b', j) == Word(b, j)
  {
    assert b[..n][j] == b'[..n][j] && b[..n][j + 1] == b'[..n][j + 1];
  }

  lemma HeaderAt(b: seq<Byte>, n: nat, words: seq<nat>, i: nat)
    requires Header(b, n, words) && i < |words|
    ensures 2 * i + 2 <= n <= |b| && Word(b, 2 * i) == words[i]
  {
  }

  lemma NameParses(c: seq<Byte>, r: nat, name: seq<Byte>, b: seq<Byte>)
    requires Encoded([], c, 12, name, r) && r + 4 <= |b| && c[..r] == b[..r] && |name| <= MAX_NAME
    requires name == [] || NoEmptyLabel(name)
    ensures Parse(b, r + 4, 12, 0, -1, [], NAME_ROOM) == Name(name, r)
  {
    hide Spells;
    UptoIsName(name);
    SpellsGrow(c, r, 12, name, 12, b, r + 4);
    SkipGrow(c, r, 12, name, 12, b, r + 4);
    SpellsParses(b, r + 4, 12, name);
  }

  lemma QuestionStep(b: seq<Byte>, n: nat, j: nat, count: nat, text: seq<Byte>, next: nat)
    requires n <= |b| && Parse(b, n, j, 0, -1, [], NAME_ROOM) == Name(text, next) && next + 4 <= n && 0 !in text
    requires count > 0
    ensures var rest := Questions(b, n, next + 4, count - 1);
      Questions(b, n, j, count) == (rest.0, [Question(text, Word(b, next), Word(b, next + 2))] + rest.1)
    ensures Questions(b, n, next + 4, 0) == (true, [])
  {
    hide Parse;
    assert CString(text) == text;
  }

  lemma OneQuestion(b: seq<Byte>, n: nat, j: nat, text: seq<Byte>, next: nat)
    requires n <= |b| && Parse(b, n, j, 0, -1, [], NAME_ROOM) == Name(text, next) && next + 4 <= n && 0 !in text
    ensures Questions(b, n, j, 1) == (true, [Question(text, Word(b, next), Word(b, next + 2))])
  {
    hide Parse;
    hide Questions;
    QuestionStep(b, n, j, 1, text, next);
    var q := Question(text, Word(b, next), Word(b, next + 2));
    assert [q] + [] == [q];
  }

  /** Names that lie one after another, each with its type and class after it, and parse. */
  ghost predicate Asked(b: seq<Byte>, n: nat, start: nat, pieces: seq<Piece>, starts: seq<nat>, ends: seq<nat>)
  {
    && |starts| == |ends| == |pieces| && Laid(b, start, n, pieces, starts, ends)
    && forall i | 0 <= i < |pieces| ::
         && |pieces[i].after| == 4 && 0 !in pieces[i].name && |pieces[i].name| <= MAX_NAME
         && ParsesTo(b, n, starts[i], pieces[i].name, ends[i])
  }

  function AsQuestion(p: Piece): Question
    requires |p.after| == 4
  {
    Question(p.name, Word(p.after, 0), Word(p.after, 2))
  }

  lemma AskedOne(b: seq<Byte>, n: nat, start: nat, pieces: seq<Piece>, starts: seq<nat>, ends: seq<nat>, i: nat)
    requires Asked(b, n, start, pieces, starts, ends) && i < |pieces|
    ensures n <= |b| && |pieces[i].after| == 4 && 0 !in pieces[i].name && ends[i] + 4 <= n
    ensures Parse(b, n, starts[i], 0, -1, [], NAME_ROOM) == Name(pieces[i].name, ends[i])
    ensures Question(pieces[i].name, Word(b, ends[i]), Word(b, ends[i] + 2)) == AsQuestion(pieces[i])
    ensures i + 1 < |pieces| ==> starts[i + 1] == ends[i] + 4
  {
    hide Parse;
    var p := pieces[i];
    assert b[ends[i]..ends[i] + 4] == p.after;
    forall k | 0 <= k < 4 ensures b[ends[i] + k] == p.after[k] {
      assert b[ends[i]..ends[i] + 4][k] == b[ends[i] + k];
    }
  }

  function AsQuestions(pieces: seq<Piece>): seq<Question>
    requires forall p | p in pieces :: |p.after| == 4
  {
    if pieces == [] then [] else [AsQuestion(pieces[0])] + AsQuestions(pieces[1..])
  }

  /** Several questions in one message are read back one by one, whatever compression there
      is between their names. */
  lemma {:induction false} AllAsked(b: seq<Byte>, n: nat, start: nat, pieces: seq<Piece>, starts: seq<nat>,
        ends: seq<nat>, i: nat)
    requires n <= |b| && Asked(b, n, start, pieces, starts, ends) && i < |pieces|
    ensures forall p | p in pieces[i..] :: |p.after| == 4
    ensures Questions(b, n, starts[i], |pieces| - i) == (true, AsQuestions(pieces[i..]))
    decreases |pieces| - i
  {
    hide Questions;
    hide Word;
    hide Parse;
    hide Laid;
    AskedOne(b, n, start, pieces, starts, ends, i);
    hide Asked;
    QuestionStep(b, n, starts[i], |pieces| - i, pieces[i].name, ends[i]);
    if i + 1 < |pieces| {
      AllAsked(b, n, start, pieces, starts, ends, i + 1);
    } else {
      assert pieces[i + 1..] == [];
    }
    PieceFirst(pieces, i);
  }

  lemma PieceFirst(pieces: seq<Piece>, i: nat)
    requires i < |pieces| && |pieces[i].after| == 4 && forall p | p in pieces[i + 1..] :: |p.after| == 4
    ensures forall p | p in pieces[i..] :: |p.after| == 4
    ensures AsQuestions(pieces[i..]) == [AsQuestion(pieces[i])] + AsQuestions(pieces[i + 1..])
  {
    assert pieces[i..] == [pieces[i]] + pieces[i + 1..];
  }

  lemma QueryParses(c: seq<Byte>, r: nat, name: seq<Byte>, b: seq<Byte>, id: nat, kind: nat, class_: nat)
    requires Encoded([], c, 12, name, r) && r + 4 <= |b| && c[..r] == b[..r] && |name| <= MAX_NAME && 0 !in name
    requires name == [] || NoEmptyLabel(name)
    requires Header(c, 12, [id, 0x0100, 1, 0, 0, 0]) && Word(b, r) == kind && Word(b, r + 2) == class_
    ensures ParseRequest(b, r + 4) == Request(id, 0x0100, [Question(name, kind, class_)])
  {
    hide Encoded;
    hide NoEmptyLabel;
    hide Header;
    hide Parse;
    hide Questions;
    hide Word;
    hide ParseRequest;
    EncodedEnd([], c, 12, name, r);
    SamePrefix(c, b, r, 0, 12);
    var words := [id, 0x0100, 1, 0, 0, 0];
    HeaderKept(c, 12, words, b);
    HeaderAt(b, 12, words, 0);
    HeaderAt(b, 12, words, 1);
    HeaderAt(b, 12, words, 2);
    NameParses(c, r, name, b);
    OneQuestion(b, r + 4, 12, name, r);
    assert words[0] == id && words[1] == 0x0100 && words[2] == 1;
    OneParsed(b, r + 4, Question(name, kind, class_));
  }

  lemma OneParsed(b: seq<Byte>, n: nat, q: Question)
    requires 12 <= n <= |b| && Word(b, 2) == 0x0100 && Word(b, 4) == 1 && Questions(b, n, 12, 1) == (true, [q])
    ensures ParseRequest(b, n) == Request(Word(b, 0), 0x0100, [q])
  {
    hide Questions;
    hide Word;
    assert Preserved(0x0100) == 0x0100 && !HasOpcode(0x0100);
  }
}
