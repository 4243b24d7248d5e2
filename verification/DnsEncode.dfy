/** Writing domain names into messages, with compression (deps/libevent/evdns.c). */
module DnsEncode {
  import opened Bytes
  import opened DnsNames

  const MAX_LABELS := 128

  /** A suffix of a name, and where it is in the message. */
  datatype Entry = Entry(v: seq<Byte>, pos: nat)

  /** Where the first entry for a suffix is, or -1. */
  function PosOf(labels: seq<Entry>, v: seq<Byte>): int
  {
    if labels == [] then -1 else if labels[0].v == v then labels[0].pos else PosOf(labels[1..], v)
  }

  /** Where a pointer in a name leads: to the first of its suffixes that is known (-1 if none is). */
  function Known(labels: seq<Entry>, name: seq<Byte>): int
    decreases |name|
  {
    var n := FirstLabel(name);
    if PosOf(labels, name) >= 0 then PosOf(labels, name)
    else if n == |name| then -1 else Known(labels, name[n + 1..])
  }

  lemma KnownStep(labels: seq<Entry>, name: seq<Byte>)
    ensures PosOf(labels, name) >= 0 ==> Known(labels, name) == PosOf(labels, name)
    ensures PosOf(labels, name) < 0 && FirstLabel(name) < |name| ==>
      Known(labels, name) == Known(labels, name[FirstLabel(name) + 1..])
    ensures PosOf(labels, name) < 0 && FirstLabel(name) == |name| ==> Known(labels, name) == -1
  {
  }

  /** Entries for longer suffixes do not matter. */
  lemma {:induction false} PosOfShorter(labels: seq<Entry>, added: seq<Entry>, v: seq<Byte>)
    requires forall e | e in added :: |e.v| > |v|
    ensures PosOf(labels + added, v) == PosOf(labels, v)
    decreases |labels| + |added|
  {
    if labels != [] {
      assert (labels + added)[1..] == labels[1..] + added;
      PosOfShorter(labels[1..], added, v);
    } else if added != [] {
      assert labels + added == added;
      assert added[0] in added;
      PosOfShorter([], added[1..], v);
      assert [] + added[1..] == added[1..];
    }
  }

  lemma {:induction false} PosOfAt(labels: seq<Entry>, v: seq<Byte>, k: nat)
    requires k < |labels| && labels[k].v == v && forall i | 0 <= i < k :: labels[i].v != v
    ensures PosOf(labels, v) == labels[k].pos
  {
    if k > 0 {
      PosOfAt(labels[1..], v, k - 1);
    }
  }

  lemma {:induction false} PosOfNone(labels: seq<Entry>, v: seq<Byte>)
    requires forall e | e in labels :: e.v != v
    ensures PosOf(labels, v) == -1
  {
    if labels != [] {
      PosOfNone(labels[1..], v);
    }
  }

  class Table {
    var labels: seq<Entry>

    /** dnslabel_table_init. */
    constructor ()
      ensures labels == []
    {
      labels := [];
    }

    /** dnslabel_table_get_pos: the first entry for a suffix. */
    method GetPos(v: seq<Byte>) returns (r: int, ghost k: nat)
      ensures r < 0 ==> forall e | e in labels :: e.v != v
      ensures r >= 0 ==> k < |labels| && labels[k] == Entry(v, r) && forall i | 0 <= i < k :: labels[i].v != v
      ensures r == PosOf(labels, v)
    {
      var i := 0;
      while i < |labels|
        invariant 0 <= i <= |labels| && forall l | 0 <= l < i :: labels[l].v != v
      {
        if v == labels[i].v {
          PosOfAt(labels, v, i);
          return labels[i].pos, i;
        }
        i := i + 1;
      }
      PosOfNone(labels, v);
      return -1, 0;
    }

    /** dnslabel_table_add. */
    method AddLabel(v: seq<Byte>, pos: nat) returns (r: int)
      modifies this
      ensures r == if |old(labels)| == MAX_LABELS then -1 else 0
      ensures labels == if r == 0 then old(labels) + [Entry(v, pos)] else old(labels)
    {
      if |labels| == MAX_LABELS {
        return -1;
      }
      labels := labels + [Entry(v, pos)];
      r := 0;
    }
  }

  /** The first label of rest is written at j, and it is not the last. */
  predicate Written(b: seq<Byte>, j: nat, rest: seq<Byte>)
  {
    var n := FirstLabel(rest);
    0 < n < |rest| && n <= MAX_LABEL && j + 1 + n <= |b| && b[j] == n && b[j + 1..j + 1 + n] == rest[..n]
  }

  lemma WrittenGrow(b: seq<Byte>, at: nat, v: seq<Byte>, j: nat, b': seq<Byte>)
    requires j <= |b| && j <= |b'| && b[..j] == b'[..j] && Written(b, at, v) && at + 1 + FirstLabel(v) <= j
    ensures Written(b', at, v)
  {
    hide FirstLabel;
    SamePrefix(b, b', j, at, at);
    SamePrefix(b, b', j, at + 1, at + 1 + FirstLabel(v));
  }

  /** Whole labels lead from at to j, where rest is what is left of v. */
  predicate Leads(b: seq<Byte>, at: nat, v: seq<Byte>, j: nat, rest: seq<Byte>)
    requires j <= |b|
    decreases |v|
  {
    var n := FirstLabel(v);
    || (v == rest && at == j)
    || (Written(b, at, v) && at + 1 + n <= j && Leads(b, at + 1 + n, v[n + 1..], j, rest))
  }

  lemma {:induction false} LeadsGrow(b: seq<Byte>, at: nat, v: seq<Byte>, j: nat, rest: seq<Byte>, b': seq<Byte>)
    requires j <= |b| && j <= |b'| && b[..j] == b'[..j] && Leads(b, at, v, j, rest)
    ensures Leads(b', at, v, j, rest)
    decreases |v|
  {
    if !(v == rest && at == j) {
      var n := FirstLabel(v);
      WrittenGrow(b, at, v, j, b');
      LeadsGrow(b, at + 1 + n, v[n + 1..], j, rest, b');
    }
  }

  lemma {:induction false} LeadsMore(b: seq<Byte>, at: nat, v: seq<Byte>, j: nat, rest: seq<Byte>)
    requires j <= |b| && Leads(b, at, v, j, rest) && Written(b, j, rest)
    ensures Leads(b, at, v, j + 1 + FirstLabel(rest), rest[FirstLabel(rest) + 1..])
    decreases |v|
  {
    if !(v == rest && at == j) {
      LeadsMore(b, at + 1 + FirstLabel(v), v[FirstLabel(v) + 1..], j, rest);
    }
  }

  lemma SpellsInside(b: seq<Byte>, n: nat, at: nat, name: seq<Byte>, h: nat)
    requires n <= |b| && Spells(b, n, at, name, h)
    ensures at < n
  {
  }

  lemma {:induction false} LeadsSpells(b: seq<Byte>, n: nat, at: nat, v: seq<Byte>, j: nat, rest: seq<Byte>, h: nat)
    requires j <= n <= |b| && Leads(b, at, v, j, rest) && Spells(b, n, j, Upto(rest), h)
    ensures Spells(b, n, at, Upto(v), h)
    decreases |v|
  {
    hide Spells;
    hide Upto;
    hide FirstLabel;
    SpellsInside(b, n, j, Upto(rest), h);
    if !(v == rest && at == j) {
      LeadsSpells(b, n, at + 1 + FirstLabel(v), v[FirstLabel(v) + 1..], j, rest, h);
      SpellsLabel(b, n, at, v, h);
    }
  }

  lemma SpellsLabel(b: seq<Byte>, n: nat, at: nat, v: seq<Byte>, h: nat)
    requires n <= |b| && Written(b, at, v)
    requires at + 1 + FirstLabel(v) < n && Spells(b, n, at + 1 + FirstLabel(v), Upto(v[FirstLabel(v) + 1..]), h)
    ensures Spells(b, n, at, Upto(v), h)
  {
    hide FirstLabel;
    var l := FirstLabel(v);
    var piece, rest := v[..l], Upto(v[l + 1..]);
    assert Upto(v) == if rest == [] then piece else piece + [DOT] + rest;
    hide Upto;
    if rest != [] {
      var name := piece + [DOT] + rest;
      assert name[..l] == piece && name[l] == DOT && name[l + 1..] == rest;
    }
  }

  /** Where the name goes on after labels is where it goes on at their end. */
  lemma {:induction false} LeadsSkip(b: seq<Byte>, n: nat, at: nat, v: seq<Byte>, j: nat, rest: seq<Byte>)
    requires j <= n <= |b| && Leads(b, at, v, j, rest)
    ensures Skip(b, n, at) == Skip(b, n, j)
    decreases |v|
  {
    if !(v == rest && at == j) {
      var l := FirstLabel(v);
      LeadsSkip(b, n, at + 1 + l, v[l + 1..], j, rest);
    }
  }

  lemma {:induction false} SpellsMore(b: seq<Byte>, n: nat, at: nat, name: seq<Byte>, h: nat, h': nat)
    requires n <= |b| && Spells(b, n, at, name, h) && h <= h'
    ensures Spells(b, n, at, name, h')
    decreases |name|, h
  {
    if b[at] > MAX_LABEL {
      SpellsMore(b, n, Target(b[at], b[at + 1]), name, h - 1, h' - 1);
    } else if b[at] > 0 {
      var len := b[at];
      SpellsMore(b, n, at + 1 + len, if |name| == len then [] else name[len + 1..], h, h');
    }
  }

  /** An entry from before base spells its suffix up to an empty label; a later one leads
      to where the rest of the name will be written. */
  predicate EntryOk(b: seq<Byte>, e: Entry, base: nat, j: nat, rest: seq<Byte>)
    requires j <= |b|
  {
    if e.pos < base then Spells(b, j, e.pos, Upto(e.v), e.pos)
    else e.pos < j && Leads(b, e.pos, e.v, j, rest) && |e.v| > |rest|
  }

  /** Every entry spells its suffix up to an empty label, with fewer pointers than bytes before it. */
  predicate TableOk(labels: seq<Entry>, b: seq<Byte>, j: nat)
    requires j <= |b|
  {
    forall e | e in labels :: e.pos < j && Spells(b, j, e.pos, Upto(e.v), e.pos)
  }

  /** What dnsname_to_labels keeps: the entries, and the name itself. */
  predicate Going(labels: seq<Entry>, b: seq<Byte>, start: nat, name: seq<Byte>, base: nat, j: nat, rest: seq<Byte>)
  {
    && start <= base <= j <= |b|
    && (forall e | e in labels :: EntryOk(b, e, base, j, rest))
    && if start < base then Spells(b, j, start, Upto(name), start) else Leads(b, start, name, j, rest)
  }

  lemma GoingStarts(labels: seq<Entry>, b: seq<Byte>, name: seq<Byte>, j: nat)
    requires j <= |b| && TableOk(labels, b, j)
    ensures Going(labels, b, j, name, j, j, name)
  {
  }

  lemma NewEntry(b: seq<Byte>, base: nat, j: nat, rest: seq<Byte>)
    requires base <= j <= |b| && Written(b, j, rest)
    ensures EntryOk(b, Entry(rest, j), base, j + 1 + FirstLabel(rest), rest[FirstLabel(rest) + 1..])
  {
    var l := FirstLabel(rest);
    assert Leads(b, j + 1 + l, rest[l + 1..], j + 1 + l, rest[l + 1..]);
  }

  /** After a label and a dot. */
  lemma LabelStep(labels: seq<Entry>, b: seq<Byte>, start: nat, name: seq<Byte>, base: nat, j: nat, rest: seq<Byte>,
        b': seq<Byte>)
    requires Going(labels, b, start, name, base, j, rest) && j <= |b'| && b[..j] == b'[..j] && Written(b', j, rest)
    ensures var l := FirstLabel(rest);
      Going(labels + [Entry(rest, j)], b', start, name, base, j + 1 + l, rest[l + 1..])
  {
    hide EntryOk;
    hide Leads;
    hide Spells;
    hide Upto;
    var l := FirstLabel(rest);
    NewEntry(b', base, j, rest);
    forall e | e in labels ensures EntryOk(b', e, base, j + 1 + l, rest[l + 1..]) {
      EntryStep(b, e, base, j, rest, b');
    }
    if start < base {
      SpellsGrow(b, j, start, Upto(name), start, b', j + 1 + l);
    } else {
      LeadsGrow(b, start, name, j, rest, b');
      LeadsMore(b', start, name, j, rest);
    }
  }

  lemma EntryStep(b: seq<Byte>, e: Entry, base: nat, j: nat, rest: seq<Byte>, b': seq<Byte>)
    requires j <= |b| && EntryOk(b, e, base, j, rest) && base <= j <= |b'| && b[..j] == b'[..j] && Written(b', j, rest)
    ensures EntryOk(b', e, base, j + 1 + FirstLabel(rest), rest[FirstLabel(rest) + 1..])
  {
    if e.pos < base {
      SpellsGrow(b, j, e.pos, Upto(e.v), e.pos, b', j + 1 + FirstLabel(rest));
    } else {
      LeadsGrow(b, e.pos, e.v, j, rest, b');
      LeadsMore(b', e.pos, e.v, j, rest);
    }
  }

  /** Once the rest is spelled at j, over at most base pointers, so is everything before. */
  lemma EntryDone(b: seq<Byte>, e: Entry, base: nat, j: nat, rest: seq<Byte>, b': seq<Byte>, n: nat, h: nat)
    requires j <= |b| && EntryOk(b, e, base, j, rest) && base <= j < n <= |b'| && b[..j] == b'[..j]
    requires Spells(b', n, j, Upto(rest), h) && h <= base
    ensures e.pos < n && Spells(b', n, e.pos, Upto(e.v), e.pos)
  {
    if e.pos < base {
      SpellsGrow(b, j, e.pos, Upto(e.v), e.pos, b', n);
    } else {
      LeadsGrow(b, e.pos, e.v, j, rest, b');
      LeadsSpells(b', n, e.pos, e.v, j, rest, h);
      SpellsMore(b', n, e.pos, Upto(e.v), h, e.pos);
    }
  }

  lemma Done(labels: seq<Entry>, b: seq<Byte>, start: nat, name: seq<Byte>, base: nat, j: nat, rest: seq<Byte>,
        b': seq<Byte>, n: nat, h: nat)
    requires Going(labels, b, start, name, base, j, rest) && j < n <= |b'| && b[..j] == b'[..j]
    requires Spells(b', n, j, Upto(rest), h) && h <= base
    ensures TableOk(labels + [Entry(rest, j)], b', n) && TableOk(labels, b', n)
    ensures Spells(b', n, start, Upto(name), start)
    ensures base == start ==> Skip(b', n, start) == Skip(b', n, j)
  {
    forall e | e in labels ensures e.pos < n && Spells(b', n, e.pos, Upto(e.v), e.pos) {
      EntryDone(b, e, base, j, rest, b', n, h);
    }
    SpellsMore(b', n, j, Upto(rest), h, j);
    if start < base {
      SpellsGrow(b, j, start, Upto(name), start, b', n);
    } else {
      LeadsGrow(b, start, name, j, rest, b');
      LeadsSpells(b', n, start, name, j, rest, h);
      SpellsMore(b', n, start, Upto(name), h, start);
      LeadsSkip(b', n, start, name, j, rest);
    }
  }

  /** After an empty label, which ends what is spelled before it. */
  lemma EmptyStep(labels: seq<Entry>, b: seq<Byte>, start: nat, name: seq<Byte>, base: nat, j: nat, rest: seq<Byte>,
        b': seq<Byte>)
    requires Going(labels, b, start, name, base, j, rest) && j < |b'| && b[..j] == b'[..j] && b'[j] == 0
    requires rest != [] && rest[0] == DOT
    ensures Going(labels + [Entry(rest, j)], b', start, name, j + 1, j + 1, rest[1..])
  {
    hide Leads;
    Done(labels, b, start, name, base, j, rest, b', j + 1, 0);
  }

  lemma GoingFewer(labels: seq<Entry>, e: Entry, b: seq<Byte>, start: nat, name: seq<Byte>, base: nat, j: nat,
        rest: seq<Byte>)
    requires Going(labels + [e], b, start, name, base, j, rest)
    ensures Going(labels, b, start, name, base, j, rest)
  {
    hide EntryOk;
    hide Leads;
    hide Spells;
  }

  /** The two bytes of ref | 0xc000 in 16 bits. */
  function PointerHigh(ref: nat): Byte
  {
    192 + ref % 0x4000 / 256
  }

  function PointerLow(ref: nat): Byte
  {
    ref % 256
  }

  /** A pointer leads back to where it was meant to exactly below 0x4000. */
  lemma PointerTarget(ref: nat)
    ensures Target(PointerHigh(ref), PointerLow(ref)) == ref % 0x4000
    ensures Target(PointerHigh(ref), PointerLow(ref)) == ref <==> ref < 0x4000
    ensures PointerHigh(ref) > MAX_LABEL
  {
    assert ref % 0x4000 % 256 == ref % 256;
  }

  lemma PointerSpells(b: seq<Byte>, j: nat, ref: nat, name: seq<Byte>)
    requires ref < j && j + 1 < |b| && ref < 0x4000 && b[j] == PointerHigh(ref) && b[j + 1] == PointerLow(ref)
    requires Spells(b, j + 2, ref, name, ref)
    ensures Spells(b, j + 2, j, name, ref + 1) && Skip(b, j + 2, j) == j + 2
  {
    PointerTarget(ref);
    hide PointerHigh;
    hide PointerLow;
    hide Target;
  }

  /** A known suffix: an entry from before base, which a pointer then spells. */
  lemma PointerStep(labels: seq<Entry>, b: seq<Byte>, start: nat, name: seq<Byte>, base: nat, j: nat, rest: seq<Byte>,
        b': seq<Byte>, ref: nat)
    requires Going(labels, b, start, name, base, j, rest) && Entry(rest, ref) in labels && ref < 0x4000
    requires j + 1 < |b'| && b[..j] == b'[..j] && b'[j] == PointerHigh(ref) && b'[j + 1] == PointerLow(ref)
    ensures TableOk(labels, b', j + 2) && Spells(b', j + 2, start, Upto(name), start)
    ensures base == start ==> Skip(b', j + 2, start) == j + 2
  {
    hide Leads;
    hide Spells;
    hide PointerHigh;
    hide PointerLow;
    assert EntryOk(b, Entry(rest, ref), base, j, rest);
    SpellsGrow(b, j, ref, Upto(rest), ref, b', j + 2);
    PointerSpells(b', j, ref, Upto(rest));
    Done(labels, b, start, name, base, j, rest, b', j + 2, ref + 1);
  }

  lemma LastSpells(b: seq<Byte>, j: nat, rest: seq<Byte>, n: nat)
    requires j < n <= |b| && FirstLabel(rest) == |rest| <= MAX_LABEL && b[j] == |rest|
    requires n == j + 1 + |rest| + (if rest == [] then 0 else 1) && b[j + 1..j + 1 + |rest|] == rest && b[n - 1] == 0
    ensures Spells(b, n, j, Upto(rest), 0) && Skip(b, n, j) == n
  {
    assert rest != [] ==> Spells(b, n, n - 1, [], 0) && rest[..|rest|] == rest;
  }

  /** The last label and the zero after it, or an empty one. */
  lemma LastStep(labels: seq<Entry>, b: seq<Byte>, start: nat, name: seq<Byte>, base: nat, j: nat, rest: seq<Byte>,
        b': seq<Byte>, n: nat)
    requires Going(labels, b, start, name, base, j, rest) && j < n <= |b'| && b[..j] == b'[..j]
    requires FirstLabel(rest) == |rest| <= MAX_LABEL && b'[j] == |rest|
    requires n == j + 1 + |rest| + (if rest == [] then 0 else 1)
    requires b'[j + 1..j + 1 + |rest|] == rest && b'[n - 1] == 0
    ensures TableOk(labels + [Entry(rest, j)], b', n) && TableOk(labels, b', n)
    ensures Spells(b', n, start, Upto(name), start)
    ensures base == start ==> Skip(b', n, start) == n
  {
    hide Leads;
    hide Spells;
    hide EntryOk;
    LastSpells(b', j, rest, n);
    Done(labels, b, start, name, base, j, rest, b', n, 0);
  }

  method PutLabel(buf: array<Byte>, j: nat, piece: seq<Byte>)
    requires j + 1 + |piece| <= buf.Length && |piece| <= MAX_LABEL
    modifies buf
    ensures buf[..j] == old(buf[..j]) && buf[j] == |piece| && buf[j + 1..j + 1 + |piece|] == piece
  {
    buf[j] := |piece|;
    forall i | 0 <= i < |piece| {
      buf[j + 1 + i] := piece[i];
    }
  }

  /** The entries of a table, if there is one. */
  function LabelsOf(table: Table?): seq<Entry>
    reads table
  {
    if table == null then [] else table.labels
  }

  /** Remembers a suffix, if there is a table with room. */
  method Remember(table: Table?, rest: seq<Byte>, j: nat)
    modifies table
    ensures LabelsOf(table) in {old(LabelsOf(table)), old(LabelsOf(table)) + [Entry(rest, j)]}
  {
    if table != null {
      var _ := table.AddLabel(rest, j);
    }
  }

  /** The result of writing a name: it spells the part before the first empty label, over
      fewer pointers than there are bytes before it; and the table is right again. */
  ghost predicate Encoded(labels: seq<Entry>, b: seq<Byte>, start: nat, name: seq<Byte>, r: nat)
  {
    && start < r <= |b|
    && TableOk(labels, b, r)
    && Spells(b, r, start, Upto(name), start)
    && (name == [] || NoEmptyLabel(name) ==> Skip(b, r, start) == r)
  }

  /** One label and the dot after it.  An empty label is the zero that ends a name. */
  method LabelAndDot(buf: array<Byte>, table: Table?, start: nat, name: seq<Byte>, j: nat, rest: seq<Byte>,
        ghost base: nat)
    returns (next: nat, ghost base': nat)
    requires j + 1 + FirstLabel(rest) <= buf.Length && FirstLabel(rest) < |rest| && FirstLabel(rest) <= MAX_LABEL
    modifies buf, table
    ensures next == j + 1 + FirstLabel(rest) && buf[..j] == old(buf[..j])
    ensures LabelsOf(table) in {old(LabelsOf(table)), old(LabelsOf(table)) + [Entry(rest, j)]}
    ensures old(Going(LabelsOf(table), buf[..], start, name, base, j, rest)) ==>
      Going(LabelsOf(table), buf[..], start, name, base', next, rest[FirstLabel(rest) + 1..])
    ensures FirstLabel(rest) > 0 ==> base' == base
  {
    hide Going;
    hide EntryOk;
    hide Leads;
    hide Spells;
    ghost var b, labels := buf[..], LabelsOf(table);
    var n := FirstLabel(rest);
    Remember(table, rest, j);
    PutLabel(buf, j, rest[..n]);
    next := j + 1 + n;
    assert b[..j] == buf[..][..j] && buf[..][j] == n && buf[..][j + 1..j + 1 + n] == rest[..n];
    base' := if n > 0 then base else j + 1;
    if Going(labels, b, start, name, base, j, rest) {
      if n > 0 {
        LabelStep(labels, b, start, name, base, j, rest, buf[..]);
      } else {
        EmptyStep(labels, b, start, name, base, j, rest, buf[..]);
      }
      GoingFewer(labels, Entry(rest, j), buf[..], start, name, base', next, rest[n + 1..]);
    }
  }

  /** The last label, and a zero unless that is what it is. */
  method LastLabel(buf: array<Byte>, table: Table?, start: nat, name: seq<Byte>, j: nat, rest: seq<Byte>,
        ghost base: nat)
    returns (r: nat)
    requires j + 1 + |rest| < buf.Length && FirstLabel(rest) == |rest| <= MAX_LABEL && 0 !in rest
    requires name == [] || NoEmptyLabel(name) ==> base == start
    modifies buf, table
    ensures r == j + 1 + |rest| + (if rest == [] then 0 else 1) && buf[..j] == old(buf[..j])
    ensures old(Going(LabelsOf(table), buf[..], start, name, base, j, rest)) ==>
      Encoded(LabelsOf(table), buf[..], start, name, r)
  {
    hide EntryOk;
    hide Leads;
    hide Spells;
    hide TableOk;
    ghost var b, labels := buf[..], LabelsOf(table);
    Remember(table, rest, j);
    PutLabel(buf, j, rest);
    r := j + 1 + |rest|;
    assert rest != [] ==> buf[r - 1] == buf[j + 1..j + 1 + |rest|][|rest| - 1] == rest[|rest| - 1];
    assert rest == [] ==> buf[r - 1] == 0;
    if buf[r - 1] != 0 {
      assert rest == buf[j + 1..j + 1 + |rest|];
      buf[r] := 0;
      r := r + 1;
    }
    assert b[..j] == buf[..][..j] && buf[..][j + 1..j + 1 + |rest|] == rest;
    if Going(labels, b, start, name, base, j, rest) {
      LastStep(labels, b, start, name, base, j, rest, buf[..], r);
    }
  }

  method PutPointer(buf: array<Byte>, table: Table?, start: nat, name: seq<Byte>, j: nat, rest: seq<Byte>,
        ghost base: nat, ref: nat)
    requires j + 1 < buf.Length && Entry(rest, ref) in LabelsOf(table)
    requires name == [] || NoEmptyLabel(name) ==> base == start
    modifies buf
    ensures buf[..j] == old(buf[..j])
    ensures ref < 0x4000 && old(Going(LabelsOf(table), buf[..], start, name, base, j, rest)) ==>
      Encoded(LabelsOf(table), buf[..], start, name, j + 2)
  {
    hide Going;
    hide TableOk;
    hide EntryOk;
    hide Leads;
    hide Spells;
    hide PointerHigh;
    hide PointerLow;
    ghost var b := buf[..];
    buf[j] := PointerHigh(ref);
    buf[j + 1] := PointerLow(ref);
    assert b[..j] == buf[..][..j];
    if ref < 0x4000 && Going(LabelsOf(table), b, start, name, base, j, rest) {
      GoingInside(LabelsOf(table), b, start, name, base, j, rest);
      PointerStep(LabelsOf(table), b, start, name, base, j, rest, buf[..], ref);
    }
  }

  lemma GoingInside(labels: seq<Entry>, b: seq<Byte>, start: nat, name: seq<Byte>, base: nat, j: nat, rest: seq<Byte>)
    requires Going(labels, b, start, name, base, j, rest)
    ensures start <= base <= j <= |b|
  {
  }

  /** A name whose last label is not empty. */
  predicate EndsInLabel(name: seq<Byte>)
  {
    name != [] && name[|name| - 1] != DOT
  }

  lemma DropEnds(name: seq<Byte>, k: nat)
    requires 0 < k <= |name| && name[k - 1] == DOT
    ensures EndsInLabel(name) <==> EndsInLabel(name[k..])
  {
    if k < |name| {
      assert name[k..][|name[k..]| - 1] == name[|name| - 1];
    }
  }

  lemma OneLabelEnds(name: seq<Byte>)
    requires FirstLabel(name) == |name|
    ensures EndsInLabel(name) <==> name != []
  {
  }

  lemma NothingEnds()
    ensures !EndsInLabel([])
  {
  }

  /** The entries after one more, if it was remembered. */
  lemma AddedMore(labels: seq<Entry>, added: seq<Entry>, rest: seq<Byte>, j: nat, now: seq<Entry>, n: nat)
    returns (more: seq<Entry>)
    requires now in {labels + added, labels + added + [Entry(rest, j)]} && n < |rest|
    requires forall e | e in added :: |e.v| > |rest|
    ensures now == labels + more && forall e | e in more :: |e.v| > |rest| - n - 1
  {
    more := if now == labels + added then added else added + [Entry(rest, j)];
  }

  /** dnsname_to_labels.  What it writes is the name, unless a pointer would have to lead to
      0x4000 or beyond.  The last zero is written without a test: it falls on buf[bufLen]
      exactly when the name, written whole, ends there. */
  method DnsnameToLabels(buf: array<Byte>, bufLen: nat, start: nat, name: seq<Byte>, table: Table?) returns (r: int)
    requires bufLen < buf.Length && start <= bufLen && 0 !in name
    modifies buf, table
    ensures buf[..start] == old(buf[..start])
    ensures r < 0 ==> r == -1 || r == -2
    ensures r >= 0 ==> |name| <= MAX_NAME && start < r <= bufLen + 1
    ensures r >= 0 && old(TableOk(LabelsOf(table), buf[..], start) && Known(LabelsOf(table), name) < 0x4000) ==>
      Encoded(LabelsOf(table), buf[..], start, name, r)
    ensures r >= 0 ==>
      if old(Known(LabelsOf(table), name)) >= 0 then r <= bufLen && r <= start + |name| + 2
      else r == start + |name| + (if EndsInLabel(name) then 2 else 1)
    ensures r == -1 ==> !ShortLabels(name)
    ensures |name| <= MAX_NAME && ShortLabels(name) && start + |name| + 2 <= bufLen ==> r >= 0
    ensures |name| <= MAX_NAME && ShortLabels(name) && start + |name| + 1 == bufLen && EndsInLabel(name) ==> r >= 0
  {
    hide Encoded;
    hide EntryOk;
    hide TableOk;
    hide Leads;
    hide Spells;
    hide Going;
    hide ShortLabels;
    hide NoEmptyLabel;
    hide FirstLabel;
    hide PosOf;
    hide Known;
    hide EndsInLabel;
    NothingEnds();
    if |name| > MAX_NAME {
      return -2;
    }
    var j, rest := start, name;
    ghost var base, labels, added := start, LabelsOf(table), [];
    ghost var good := TableOk(labels, buf[..], start);
    if good {
      GoingStarts(labels, buf[..], name, start);
    }
    assert labels + added == labels;
    while true
      invariant start <= j <= bufLen && j + |rest| == start + |name| && 0 !in rest
      invariant EndsInLabel(name) <==> EndsInLabel(rest)
      invariant LabelsOf(table) == labels + added && forall e | e in added :: |e.v| > |rest|
      invariant Known(labels, name) == Known(labels, rest)
      invariant good ==> Going(LabelsOf(table), buf[..], start, name, base, j, rest)
      invariant name == [] || NoEmptyLabel(name) ==> base == start && (rest == name || NoEmptyLabel(rest))
      invariant ShortLabels(name) ==> ShortLabels(rest)
      invariant buf[..start] == old(buf[..start])
      decreases |rest|
    {
      PosOfShorter(labels, added, rest);
      KnownStep(labels, rest);
      if table != null {
        var ref, _ := table.GetPos(rest);
        if ref >= 0 {
          if j + 2 > bufLen {
            return -2;
          }
          PutPointer(buf, table, start, name, j, rest, base, ref);
          return j + 2;
        }
      } else {
        PosOfNone(labels, rest);
      }
      var n := FirstLabel(rest);
      AfterFirstLabel(rest);
      if n > MAX_LABEL {
        return -1;
      }
      if j + n + 1 > bufLen {
        return -2;
      }
      if n == |rest| {
        OneLabelEnds(rest);
        r := LastLabel(buf, table, start, name, j, rest, base);
        return;
      }
      j, base := LabelAndDot(buf, table, start, name, j, rest, base);
      added := AddedMore(labels, added, rest, j - n - 1, LabelsOf(table), n);
      DropEnds(rest, n + 1);
      rest := rest[n + 1..];
    }
  }

  /** A name of one letter fills a buffer of two bytes, and its last zero falls behind it. */
  method LastZeroBehind() returns (r: int)
    ensures r == 3
  {
    var name: seq<Byte> := [97];
    assert FirstLabel(name) == 1 && ShortLabels(name);
    PosOfNone([], name);
    KnownStep([], name);
    var buf := new Byte[3](_ => 0);
    r := DnsnameToLabels(buf, 2, 0, name, null);
  }

  /** Pointers lead to places before the end of what is written. */
  lemma {:induction false} KnownBefore(labels: seq<Entry>, name: seq<Byte>, j: nat)
    requires forall e | e in labels :: e.pos < j
    ensures Known(labels, name) < j || Known(labels, name) == -1
    decreases |name|
  {
    hide PosOf;
    KnownStep(labels, name);
    PosOfBefore(labels, name, j);
    if PosOf(labels, name) < 0 && FirstLabel(name) < |name| {
      KnownBefore(labels, name[FirstLabel(name) + 1..], j);
    }
  }

  lemma {:induction false} PosOfBefore(labels: seq<Entry>, v: seq<Byte>, j: nat)
    requires forall e | e in labels :: e.pos < j
    ensures PosOf(labels, v) < j || PosOf(labels, v) == -1
  {
    if labels != [] {
      assert labels[0] in labels;
      PosOfBefore(labels[1..], v, j);
    }
  }
}
