/** Tagged records in a byte queue (deps/libevent/event_tagging.c). */
module Tagging {
  import opened Bytes
  import opened Chains
  import opened Pieces
  import opened Evbuffers
  import opened TagCodec

  /** A buffer that lends no memory, with no empty chain at its end. */
  ghost predicate Plain(buf: Evbuffer)
    reads buf, buf.cells
  {
    && buf.Valid() && buf.TailClean() && !buf.freezeStart && !buf.freezeEnd
    && forall c | c in buf.cells :: !c.immutable
  }

  method Put(buf: Evbuffer, bytes: seq<Byte>)
    requires Plain(buf)
    modifies buf, buf.cells
    ensures Plain(buf) && buf.Contents() == old(buf.Contents()) + bytes
    ensures forall c | c in buf.cells && c !in old(buf.cells) :: fresh(c)
  {
    hide Segment;
    hide Flat;
    hide LastWithData;
    buf.LastIn();
    var r := buf.Add(bytes);
  }

  /** evbuffer_pullup: up to n bytes from the start. */
  method Peek(buf: Evbuffer, n: nat) returns (out: seq<Byte>)
    requires Plain(buf)
    modifies buf, buf.cells
    ensures Plain(buf) && buf.Contents() == old(buf.Contents())
    ensures out == if n <= |buf.Contents()| then buf.Contents()[..n] else []
    ensures forall c | c in buf.cells && c !in old(buf.cells) :: fresh(c)
  {
    hide Segment;
    hide Flat;
    hide LastWithData;
    var ok := buf.Pullup(n);
    out := [];
    if ok {
      buf.ChainAt(0);
      out := buf.first.Read(0, n);
    }
  }

  method Drop(buf: Evbuffer, n: nat)
    requires Plain(buf) && n <= |buf.Contents()|
    modifies buf, buf.cells
    ensures Plain(buf) && buf.Contents() == old(buf.Contents())[n..]
    ensures forall c | c in buf.cells && c !in old(buf.cells) :: fresh(c)
  {
    hide Segment;
    hide Flat;
    hide LastWithData;
    ghost var s := buf.Contents();
    var r := buf.Drain(n);
    assert n == |s| ==> s[n..] == [];
  }

  /** evtag_encode_tag. */
  method EncodeTag(buf: Evbuffer, tag: nat) returns (ghost bytes: seq<Byte>)
    requires Plain(buf) && tag < TWO32
    modifies buf, buf.cells
    ensures Plain(buf) && buf.Contents() == old(buf.Contents()) + bytes
    ensures EncodesTag(bytes, tag, |bytes|) && |bytes| <= 5
    ensures forall c | c in buf.cells && c !in old(buf.cells) :: fresh(c)
  {
    hide Plain;
    var data := EncodeTagBytes(tag);
    Put(buf, data);
    bytes := data;
  }

  /** evtag_encode_int and evtag_encode_int64. */
  method EncodeInt(buf: Evbuffer, number: nat, max: nat) returns (ghost bytes: seq<Byte>)
    requires Plain(buf) && max in {8, 16} && number < Pow16(max)
    modifies buf, buf.cells
    ensures Plain(buf) && buf.Contents() == old(buf.Contents()) + bytes
    ensures EncodesInt(bytes, number, |bytes|) && |bytes| <= max / 2 + 1 && IntFits(bytes, max)
    ensures forall c | c in buf.cells && c !in old(buf.cells) :: fresh(c)
  {
    hide Plain;
    var data := EncodeIntInternal(number, max);
    Put(buf, data);
    bytes := data;
  }

  /** decode_tag_internal. */
  method DecodeTag(buf: Evbuffer, drain: bool) returns (r: TagResult)
    requires Plain(buf)
    modifies buf, buf.cells
    ensures Plain(buf) && forall c | c in buf.cells && c !in old(buf.cells) :: fresh(c)
    ensures var s := old(buf.Contents());
      && (r.Tag? ==> exists tag: nat :: EncodesTag(s, tag, r.len) && r.number == tag % TWO32)
      && (forall tag: nat, len: nat | EncodesTag(s, tag, len) && len <= TAG_BYTES :: r == Tag(tag % TWO32, len))
      && (r.Tag? ==> r.len <= |s|)
      && buf.Contents() == if r.Tag? && drain then s[r.len..] else s
  {
    hide Plain;
    hide Groups;
    var len := buf.totalLen;
    LengthIs(buf);
    ghost var s := buf.Contents();
    var data := Peek(buf, if len < TAG_BYTES then len else TAG_BYTES);
    r := DecodeTagBytes(data, len);
    TagOfPrefix(s, data, r);
    if r.Tag? && drain {
      Drop(buf, r.len);
    }
  }

  /** The first five bytes decide. */
  lemma TagOfPrefix(s: seq<Byte>, data: seq<Byte>, r: TagResult)
    requires data == if |s| < TAG_BYTES then s else s[..TAG_BYTES]
    requires r.Tag? ==>
      0 < r.len <= |data| && exists tag: nat :: EncodesTag(data, tag, r.len) && r.number == tag % TWO32
    requires !r.Tag? ==> forall i | 0 <= i < |data| :: data[i] >= 128
    ensures r.Tag? ==> exists tag: nat :: EncodesTag(s, tag, r.len) && r.number == tag % TWO32
    ensures forall tag: nat, len: nat | EncodesTag(s, tag, len) && len <= TAG_BYTES :: r == Tag(tag % TWO32, len)
  {
    if r.Tag? {
      var tag: nat :| EncodesTag(data, tag, r.len) && r.number == tag % TWO32;
      TagInPrefix(data, s, tag, r.len);
    }
    forall tag: nat, len: nat | EncodesTag(s, tag, len) && len <= TAG_BYTES ensures r == Tag(tag % TWO32, len) {
      TagInPrefix(s, data, tag, len);
      assert data[len - 1] < 128;
      var t: nat :| EncodesTag(data, t, r.len) && r.number == t % TWO32;
      TagUnique(data, tag, len, t, r.len);
    }
  }

  lemma TagInPrefix(s: seq<Byte>, s': seq<Byte>, tag: nat, len: nat)
    requires EncodesTag(s, tag, len) && len <= |s'| && s[..len] == s'[..len]
    ensures EncodesTag(s', tag, len)
  {
    TagWithAnyTail(s, len, tag, s'[len..]);
    assert s[..len] + s'[len..] == s';
  }

  lemma LengthIs(buf: Evbuffer)
    requires Plain(buf)
    ensures buf.totalLen == |buf.Contents()|
  {
  }

  /** The count of nibbles that s starts with is one the decoder takes. */
  predicate IntFits(s: seq<Byte>, max: nat)
  {
    s != [] && Nibble(s, 0) + 1 <= max
  }

  /** decode_int_internal and decode_int64_internal: nothing is drained. */
  method DecodeIntAt(buf: Evbuffer, offset: nat, max: nat) returns (r: IntResult)
    requires Plain(buf) && offset <= |buf.Contents()| && max in {8, 16}
    modifies buf, buf.cells
    ensures Plain(buf) && buf.Contents() == old(buf.Contents())
    ensures forall c | c in buf.cells && c !in old(buf.cells) :: fresh(c)
    ensures r.Int? ==> offset + r.len <= |buf.Contents()|
    ensures var s := buf.Contents()[offset..];
      && (r.Int? ==> EncodesInt(s, r.number, r.len) && IntFits(s, max) && r.number < Pow16(max))
      && (forall n: nat, len: nat | EncodesInt(s, n, len) && IntFits(s, max) :: r == Int(n, len))
  {
    hide Plain;
    hide Value;
    hide Pow16;
    LengthIs(buf);
    ghost var s := buf.Contents()[offset..];
    var len := buf.totalLen - offset;
    if len <= 0 {
      return NoInt;
    }
    var data := Peek(buf, offset + 1);
    assert data[offset] == s[0];
    var nibbles := data[offset] / 16 + 1;
    if nibbles > max || nibbles / 2 + 1 > len {
      return NoInt;
    }
    data := Peek(buf, offset + nibbles / 2 + 1);
    var d := data[offset..];
    assert d == s[..nibbles / 2 + 1];
    r := DecodeIntInternal(d, max);
    IntInPrefix(d, s, r.number, r.len);
    forall n: nat, l: nat | EncodesInt(s, n, l) ensures r == Int(n, l) {
      IntUnique(s, n, l, r.number, r.len);
    }
  }

  lemma IntInPrefix(s: seq<Byte>, s': seq<Byte>, n: nat, len: nat)
    requires EncodesInt(s, n, len) && len <= |s'| && s[..len] == s'[..len]
    ensures EncodesInt(s', n, len)
  {
    IntWithAnyTail(s, len, n, s'[len..]);
    assert s[..len] + s'[len..] == s';
  }

  datatype Record = Record(tag: nat, payload: seq<Byte>)

  /** s starts with a record: a tag in t bytes, a length in l bytes, and the payload. */
  ghost predicate EncodesRecord(s: seq<Byte>, r: Record, t: nat, l: nat)
  {
    && EncodesTag(s, r.tag, t) && t <= TAG_BYTES && r.tag < TWO32
    && t + l + |r.payload| <= |s|
    && EncodesInt(s[t..], |r.payload|, l) && IntFits(s[t..], 8)
    && s[t + l..t + l + |r.payload|] == r.payload
  }

  /** Tag 129 and two bytes. */
  lemma KnownRecord()
    ensures EncodesRecord([0x81, 1, 2, 7, 8], Record(129, [7, 8]), 2, 1)
  {
    var s: seq<Byte> := [0x81, 1, 2, 7, 8];
    assert s[2..] == [2, 7, 8] && s[3..5] == [7, 8];
    assert Groups(s, 1, 2, 0) == 1;
  }

  /** evtag_marshal. */
  method Marshal(buf: Evbuffer, tag: nat, payload: seq<Byte>)
    returns (ghost bytes: seq<Byte>, ghost t: nat, ghost l: nat)
    requires Plain(buf) && tag < TWO32 && |payload| < TWO32
    modifies buf, buf.cells
    ensures Plain(buf) && buf.Contents() == old(buf.Contents()) + bytes
    ensures EncodesRecord(bytes, Record(tag, payload), t, l) && |bytes| == t + l + |payload| && t <= 5 && l <= 5
    ensures forall c | c in buf.cells && c !in old(buf.cells) :: fresh(c)
  {
    hide Plain;
    ghost var s := buf.Contents();
    Pow16Eight();
    hide Pow16;
    hide EncodesTag;
    hide EncodesInt;
    ghost var a := EncodeTag(buf, tag);
    ghost var b := EncodeInt(buf, |payload|, 8);
    Put(buf, payload);
    bytes, t, l := a + b + payload, |a|, |b|;
    assert s + a + b + payload == s + bytes;
    RecordOf(a, b, tag, payload);
  }

  lemma Pow16Eight()
    ensures Pow16(8) == TWO32
  {
    assert Pow16(4) == 65536 by {
      assert Pow16(1) == 16 && Pow16(2) == 256 && Pow16(3) == 4096;
    }
    assert Pow16(5) == 1048576 && Pow16(6) == 16777216 && Pow16(7) == 268435456;
  }

  lemma RecordOf(a: seq<Byte>, b: seq<Byte>, tag: nat, payload: seq<Byte>)
    requires EncodesTag(a, tag, |a|) && |a| <= TAG_BYTES && tag < TWO32
    requires EncodesInt(b, |payload|, |b|) && IntFits(b, 8)
    ensures EncodesRecord(a + b + payload, Record(tag, payload), |a|, |b|)
  {
    TagWithAnyTail(a, |a|, tag, b + payload);
    assert a[..|a|] + (b + payload) == a + b + payload;
    IntWithAnyTail(b, |b|, |payload|, payload);
    assert b[..|b|] + payload == (a + b + payload)[|a|..];
  }

  datatype LengthResult = NoLength | Length(len: nat)

  /** The length of a payload, of which at least as many bytes must follow. */
  method TakeLength(buf: Evbuffer) returns (r: LengthResult)
    requires Plain(buf)
    modifies buf, buf.cells
    ensures Plain(buf) && forall c | c in buf.cells && c !in old(buf.cells) :: fresh(c)
    ensures r.Length? ==> r.len <= |buf.Contents()| && |buf.Contents()| <= |old(buf.Contents())|
    ensures forall n: nat, l: nat
      | EncodesInt(old(buf.Contents()), n, l) && IntFits(old(buf.Contents()), 8) && l + n <= |old(buf.Contents())| ::
      r == Length(n) && buf.Contents() == old(buf.Contents())[l..]
  {
    hide Plain;
    hide EncodesInt;
    ghost var s := buf.Contents();
    var len := DecodeIntAt(buf, 0, 8);
    assert s[0..] == s;
    if len.NoInt? {
      return NoLength;
    }
    Drop(buf, len.len);
    LengthIs(buf);
    if buf.totalLen < len.number {
      return NoLength;
    }
    r := Length(len.number);
  }

  /** Negative: the length is one that an int turns into a negative number. */
  datatype HeaderResult = BadHeader | OutsideHeader | Negative(tag: nat, len: nat) | Header(tag: nat, len: nat)

  const INT_LIMIT := 0x8000_0000

  /** A length below 2^32 as an int: all ones are -1, which is the answer for a bad header. */
  function Returned(tag: nat, len: nat): (r: HeaderResult)
    ensures (r.Header? <==> len < 0x8000_0000) && (len < TWO32 ==> (r.BadHeader? <==> len == 0xffff_ffff))
    ensures r.Header? || r.Negative? ==> r.tag == tag && r.len == len
    ensures !r.OutsideHeader?
  {
    if len < INT_LIMIT then Header(tag, len) else if len == TWO32 - 1 then BadHeader else Negative(tag, len)
  }

  /** evtag_unmarshal_header. */
  method UnmarshalHeader(buf: Evbuffer) returns (r: HeaderResult)
    requires Plain(buf)
    modifies buf, buf.cells
    ensures Plain(buf) && forall c | c in buf.cells && c !in old(buf.cells) :: fresh(c)
    ensures r.Header? ==> r.len < INT_LIMIT
    ensures r.Header? || r.Negative? ==> r.len <= |buf.Contents()|
    ensures forall rec: Record, t: nat, l: nat | EncodesRecord(old(buf.Contents()), rec, t, l) ::
      r == Returned(rec.tag, |rec.payload|) && buf.Contents() == old(buf.Contents())[t + l..]
  {
    hide Plain;
    hide Groups;
    hide Value;
    ghost var s := buf.Contents();
    var tag := DecodeTag(buf, true);
    if tag.NoTag? {
      return BadHeader;
    }
    if tag.Outside? {
      return OutsideHeader;
    }
    var len := TakeLength(buf);
    r := if len.NoLength? then BadHeader else Returned(tag.number, len.len);
  }

  /** evtag_unmarshal: the payload goes to dst.  A negative length asks evbuffer_add for
      more memory than there is: the source does not get past looking for it. */
  method Unmarshal(src: Evbuffer, dst: Evbuffer) returns (r: HeaderResult)
    requires Plain(src) && Plain(dst) && src.Apart(dst) && dst.Apart(src)
    modifies src, src.cells, dst, dst.cells
    ensures Plain(src) && Plain(dst) && src.Apart(dst) && dst.Apart(src)
    ensures forall c | (c in src.cells || c in dst.cells) && c !in old(src.cells) && c !in old(dst.cells) :: fresh(c)
    ensures forall rec: Record, t: nat, l: nat
      | EncodesRecord(old(src.Contents()), rec, t, l) && |rec.payload| < INT_LIMIT ::
      && r == Header(rec.tag, |rec.payload|)
      && src.Contents() == old(src.Contents())[t + l + |rec.payload|..]
      && dst.Contents() == old(dst.Contents()) + rec.payload
  {
    hide Plain;
    hide EncodesRecord;
    ghost var s := src.Contents();
    r := UnmarshalHeader(src);
    if r.Header? {
      ghost var h := src.Contents();
      var payload := Peek(src, r.len);
      Put(dst, payload);
      Drop(src, r.len);
      forall rec: Record, t: nat, l: nat | EncodesRecord(s, rec, t, l)
        ensures t + l + |rec.payload| <= |s| && payload == rec.payload && h[r.len..] == s[t + l + |rec.payload|..]
      {
        RecordPayload(s, rec, t, l);
      }
    }
  }

  lemma RecordPayload(s: seq<Byte>, rec: Record, t: nat, l: nat)
    requires EncodesRecord(s, rec, t, l)
    ensures t + l + |rec.payload| <= |s| && s[t + l..][..|rec.payload|] == rec.payload
    ensures s[t + l..][|rec.payload|..] == s[t + l + |rec.payload|..]
  {
  }

  /** An integer that fills a payload, with more bytes after it. */
  lemma IntAhead(payload: seq<Byte>, h: seq<Byte>, n: nat, max: nat)
    requires EncodesInt(payload, n, |payload|) && IntFits(payload, max) && payload <= h
    ensures EncodesInt(h, n, |payload|) && IntFits(h, max)
  {
    IntInPrefix(payload, h, n, |payload|);
  }

  datatype Number = NoNumber | Got(number: nat)

  /** s starts with a record of size bytes that holds an integer. */
  ghost predicate IntRecord(s: seq<Byte>, tag: nat, n: nat, max: nat, size: nat)
  {
    exists rec: Record, t: nat, l: nat ::
      EncodesRecord(s, rec, t, l) && HoldsInt(rec, tag, n, max) && size == t + l + |rec.payload|
  }

  ghost predicate HoldsInt(rec: Record, tag: nat, n: nat, max: nat)
  {
    rec.tag == tag && EncodesInt(rec.payload, n, |rec.payload|) && IntFits(rec.payload, max)
  }

  /** evtag_marshal_int and evtag_marshal_int64: the payload is an encoded integer. */
  method MarshalInt(buf: Evbuffer, tag: nat, number: nat, max: nat)
    returns (ghost bytes: seq<Byte>)
    requires Plain(buf) && tag < TWO32 && max in {8, 16} && number < Pow16(max)
    modifies buf, buf.cells
    ensures Plain(buf) && buf.Contents() == old(buf.Contents()) + bytes
    ensures IntRecord(bytes, tag, number, max, |bytes|) && |bytes| <= 10 + max / 2 + 1
    ensures forall c | c in buf.cells && c !in old(buf.cells) :: fresh(c)
  {
    hide Plain;
    hide EncodesRecord;
    hide Pow16;
    hide Value;
    var data := EncodeIntInternal(number, max);
    ghost var t, l;
    bytes, t, l := Marshal(buf, tag, data);
    assert HoldsInt(Record(tag, data), tag, number, max);
  }

  datatype IntHeader = NotThis | This(len: nat)

  /** The first half of evtag_unmarshal_int: the tag must be the one that is needed. */
  method UnmarshalIntHeader(buf: Evbuffer, needTag: nat) returns (r: IntHeader)
    requires Plain(buf)
    modifies buf, buf.cells
    ensures Plain(buf) && forall c | c in buf.cells && c !in old(buf.cells) :: fresh(c)
    ensures r.This? ==> r.len <= |buf.Contents()|
    ensures forall rec: Record, t: nat, l: nat | EncodesRecord(old(buf.Contents()), rec, t, l) ::
      if rec.tag != needTag then r == NotThis
      else r == This(|rec.payload|) && buf.Contents() == old(buf.Contents())[t + l..]
  {
    hide Plain;
    hide Groups;
    hide Value;
    ghost var s := buf.Contents();
    var tag := DecodeTag(buf, true);
    if !tag.Tag? || tag.number != needTag {
      return NotThis;
    }
    var len := TakeLength(buf);
    r := if len.NoLength? then NotThis else This(len.len);
  }

  /** evtag_unmarshal_int and evtag_unmarshal_int64. */
  method UnmarshalInt(buf: Evbuffer, needTag: nat, max: nat) returns (r: Number)
    requires Plain(buf) && max in {8, 16}
    modifies buf, buf.cells
    ensures Plain(buf) && forall c | c in buf.cells && c !in old(buf.cells) :: fresh(c)
    ensures forall tag: nat, n: nat, size: nat | IntRecord(old(buf.Contents()), tag, n, max, size) ::
      if tag != needTag then r == NoNumber
      else r == Got(n) && size <= |old(buf.Contents())| && buf.Contents() == old(buf.Contents())[size..]
  {
    hide Plain;
    hide EncodesRecord;
    hide HoldsInt;
    hide EncodesInt;
    hide IntFits;
    hide IntRecord;
    hide Pow16;
    ghost var s := buf.Contents();
    var header := UnmarshalIntHeader(buf, needTag);
    if header.NotThis? {
      OtherTags(s, needTag, max);
      return NoNumber;
    }
    ghost var h := buf.Contents();
    var result := DecodeIntAt(buf, 0, max);
    assert h[0..] == h;
    Drop(buf, header.len);
    RecordsFit(s);
    IntsAhead(s, h, header.len, needTag, max, result);
    if result.NoInt? || result.len > header.len {
      return NoNumber;
    }
    r := Got(result.number);
  }

  lemma RecordsFit(s: seq<Byte>)
    ensures forall rec: Record, t: nat, l: nat | EncodesRecord(s, rec, t, l) :: t + l <= |s|
  {
  }

  lemma OtherTags(s: seq<Byte>, needTag: nat, max: nat)
    requires forall rec: Record, t: nat, l: nat | EncodesRecord(s, rec, t, l) :: rec.tag != needTag
    ensures forall tag: nat, n: nat, size: nat | IntRecord(s, tag, n, max, size) :: tag != needTag
  {
    hide EncodesRecord;
    hide IntRecord;
    forall tag: nat, n: nat, size: nat | IntRecord(s, tag, n, max, size) ensures tag != needTag {
      var rec, t, l := IntParts(s, tag, n, max, size);
    }
  }

  /** What is decoded at the payload of a record, h, is the integer that fills it. */
  lemma IntsAhead(s: seq<Byte>, h: seq<Byte>, len: nat, needTag: nat, max: nat, result: IntResult)
    requires len <= |h| && max in {8, 16}
    requires forall rec: Record, t: nat, l: nat | EncodesRecord(s, rec, t, l) ::
      rec.tag == needTag && len == |rec.payload| && t + l <= |s| && h == s[t + l..]
    requires forall n: nat, l: nat | EncodesInt(h, n, l) && IntFits(h, max) :: result == Int(n, l)
    ensures forall tag: nat, n: nat, size: nat | IntRecord(s, tag, n, max, size) ::
      tag == needTag && result == Int(n, len) && size <= |s| && h[len..] == s[size..]
  {
    hide EncodesRecord;
    hide EncodesInt;
    hide IntFits;
    hide IntRecord;
    forall tag: nat, n: nat, size: nat | IntRecord(s, tag, n, max, size)
      ensures tag == needTag && result == Int(n, len) && size <= |s| && h[len..] == s[size..]
    {
      var rec, t, l := IntParts(s, tag, n, max, size);
      RecordPayload(s, rec, t, l);
      IntAhead(rec.payload, h, n, max);
    }
  }

  lemma IntParts(s: seq<Byte>, tag: nat, n: nat, max: nat, size: nat) returns (rec: Record, t: nat, l: nat)
    requires IntRecord(s, tag, n, max, size)
    ensures EncodesRecord(s, rec, t, l) && rec.tag == tag && size == t + l + |rec.payload|
    ensures EncodesInt(rec.payload, n, |rec.payload|) && IntFits(rec.payload, max)
  {
    hide EncodesRecord;
    rec, t, l :| EncodesRecord(s, rec, t, l) && HoldsInt(rec, tag, n, max) && size == t + l + |rec.payload|;
  }

  /** A payload of seconds and microseconds. */
  ghost predicate HoldsTime(payload: seq<Byte>, sec: nat, usec: nat, a: nat)
  {
    && a <= |payload|
    && EncodesInt(payload, sec, a) && IntFits(payload, 8)
    && EncodesInt(payload[a..], usec, |payload| - a) && IntFits(payload[a..], 8)
  }

  /** evtag_marshal_timeval. */
  method MarshalTimeval(buf: Evbuffer, tag: nat, sec: nat, usec: nat)
    returns (ghost bytes: seq<Byte>, ghost rec: Record, ghost t: nat, ghost l: nat, ghost a: nat)
    requires Plain(buf) && tag < TWO32 && sec < TWO32 && usec < TWO32
    modifies buf, buf.cells
    ensures Plain(buf) && buf.Contents() == old(buf.Contents()) + bytes
    ensures EncodesRecord(bytes, rec, t, l) && rec.tag == tag && |bytes| == t + l + |rec.payload|
    ensures HoldsTime(rec.payload, sec, usec, a) && |rec.payload| <= 10
    ensures forall c | c in buf.cells && c !in old(buf.cells) :: fresh(c)
  {
    hide Plain;
    hide EncodesRecord;
    hide EncodesInt;
    Pow16Eight();
    hide Pow16;
    var x := EncodeIntInternal(sec, 8);
    var y := EncodeIntInternal(usec, 8);
    TwoInts(x, y, sec, usec);
    rec, a := Record(tag, x + y), |x|;
    bytes, t, l := Marshal(buf, tag, x + y);
  }

  lemma TwoInts(x: seq<Byte>, y: seq<Byte>, sec: nat, usec: nat)
    requires EncodesInt(x, sec, |x|) && IntFits(x, 8) && EncodesInt(y, usec, |y|) && IntFits(y, 8)
    ensures HoldsTime(x + y, sec, usec, |x|)
  {
    IntInPrefix(x, x + y, sec, |x|);
    assert (x + y)[|x|..] == y;
  }

  datatype Time = NoTime | Time(sec: nat, usec: nat)

  /** evtag_unmarshal_timeval. */
  method UnmarshalTimeval(buf: Evbuffer, needTag: nat, ghost rec: Record, ghost t: nat, ghost l: nat, ghost sec: nat,
        ghost usec: nat, ghost a: nat)
    returns (r: Time)
    requires Plain(buf)
    modifies buf, buf.cells
    ensures Plain(buf) && forall c | c in buf.cells && c !in old(buf.cells) :: fresh(c)
    ensures EncodesRecord(old(buf.Contents()), rec, t, l) && HoldsTime(rec.payload, sec, usec, a) ==>
      && t + l + |rec.payload| <= |old(buf.Contents())|
      && buf.Contents() == old(buf.Contents())[t + l + |rec.payload|..]
      && r == if rec.tag == needTag then Time(sec, usec) else NoTime
  {
    hide Plain;
    hide EncodesRecord;
    hide EncodesInt;
    hide Pow16;
    ghost var s := buf.Contents();
    if EncodesRecord(s, rec, t, l) {
      RecordPayload(s, rec, t, l);
    }
    if HoldsTime(rec.payload, sec, usec, a) {
      TimeIsShort(rec.payload, sec, usec, a);
    }
    var header := UnmarshalHeader(buf);
    if header.Negative? {
      // As a size the length is more than there is.
      LengthIs(buf);
      Drop(buf, buf.totalLen);
    }
    if !header.Header? {
      return NoTime;
    }
    ghost var h := buf.Contents();
    if EncodesRecord(s, rec, t, l) && HoldsTime(rec.payload, sec, usec, a) {
      TimeAhead(rec.payload, h, sec, usec, a);
    }
    r := NoTime;
    if header.tag == needTag {
      var first := DecodeIntAt(buf, 0, 8);
      assert h[0..] == h;
      if first.Int? {
        var second := DecodeIntAt(buf, first.len, 8);
        if second.Int? && first.len + second.len <= header.len {
          r := Time(first.number, second.number);
        }
      }
    }
    Drop(buf, header.len);
  }

  lemma TimeIsShort(payload: seq<Byte>, sec: nat, usec: nat, a: nat)
    requires HoldsTime(payload, sec, usec, a)
    ensures |payload| <= 10
  {
  }

  lemma TimeAhead(payload: seq<Byte>, h: seq<Byte>, sec: nat, usec: nat, a: nat)
    requires HoldsTime(payload, sec, usec, a) && payload <= h
    ensures a <= |h| && EncodesInt(h, sec, a) && IntFits(h, 8)
    ensures EncodesInt(h[a..], usec, |payload| - a) && IntFits(h[a..], 8)
  {
    IntInPrefix(payload, h, sec, a);
    assert payload[a..] <= h[a..];
    IntAhead(payload[a..], h[a..], usec, 8);
  }

  /** A stream of records, one after another. */
  ghost predicate EncodesStream(s: seq<Byte>, records: seq<Record>)
    decreases |records|
  {
    if records == [] then
      s == []
    else
      exists t: nat, l: nat ::
        EncodesRecord(s, records[0], t, l) && EncodesStream(s[t + l + |records[0].payload|..], records[1..])
  }

  /** A record is read off the front whatever comes after it. */
  lemma RecordWithTail(s: seq<Byte>, rec: Record, t: nat, l: nat, tail: seq<Byte>)
    requires EncodesRecord(s, rec, t, l)
    ensures EncodesRecord(s + tail, rec, t, l)
  {
    TagInPrefix(s, s + tail, rec.tag, t);
    IntInPrefix(s[t..], (s + tail)[t..], |rec.payload|, l);
  }

  lemma StreamCons(s: seq<Byte>, rec: Record, t: nat, l: nat, rest: seq<Record>)
    requires EncodesRecord(s, rec, t, l) && t + l + |rec.payload| <= |s|
    requires EncodesStream(s[t + l + |rec.payload|..], rest)
    ensures EncodesStream(s, [rec] + rest)
  {
    hide EncodesRecord;
    assert ([rec] + rest)[1..] == rest && ([rec] + rest)[0] == rec;
  }

  lemma {:induction false} StreamGrows(s: seq<Byte>, records: seq<Record>, e: seq<Byte>, rec: Record, t: nat, l: nat)
    requires EncodesStream(s, records) && EncodesRecord(e, rec, t, l) && |e| == t + l + |rec.payload|
    ensures EncodesStream(s + e, records + [rec])
    decreases |records|
  {
    hide EncodesRecord;
    if records == [] {
      assert s + e == e && e[t + l + |rec.payload|..] == [];
      StreamCons(e, rec, t, l, []);
      assert [] + [rec] == [rec] + [];
    } else {
      var t0, l0 := StreamParts(s, records);
      RecordPayload(s, records[0], t0, l0);
      var n := t0 + l0 + |records[0].payload|;
      StreamGrows(s[n..], records[1..], e, rec, t, l);
      RecordWithTail(s, records[0], t0, l0, e);
      assert (s + e)[n..] == s[n..] + e;
      StreamCons(s + e, records[0], t0, l0, records[1..] + [rec]);
      assert [records[0]] + (records[1..] + [rec]) == records + [rec];
    }
  }

  /** Writes records one after another, and reads them all back. */
  method StreamRoundTrip(records: seq<Record>) returns (out: seq<Record>)
    requires forall rec | rec in records :: rec.tag < TWO32 && |rec.payload| < INT_LIMIT
    ensures out == records
  {
    hide EncodesRecord;
    hide EncodesStream;
    hide Plain;
    var buf := new Evbuffer();
    NewPlain(buf);
    StreamNone();
    var i := 0;
    while i < |records|
      invariant 0 <= i <= |records| && Plain(buf) && fresh(buf) && forall c | c in buf.cells :: fresh(c)
      invariant EncodesStream(buf.Contents(), records[..i])
    {
      assert records[i] in records && records[..i + 1] == records[..i] + [records[i]];
      ghost var s := buf.Contents();
      ghost var e, t, l := Marshal(buf, records[i].tag, records[i].payload);
      StreamGrows(s, records[..i], e, records[i], t, l);
      i := i + 1;
    }
    assert records[..i] == records;
    out := ReadStream(buf, records);
  }

  /** Reads one record through a buffer of its own. */
  method ReadOne(buf: Evbuffer, ghost rec: Record, ghost t: nat, ghost l: nat) returns (out: Record)
    requires Plain(buf) && EncodesRecord(buf.Contents(), rec, t, l) && |rec.payload| < INT_LIMIT
    modifies buf, buf.cells
    ensures out == rec && Plain(buf) && forall c | c in buf.cells && c !in old(buf.cells) :: fresh(c)
    ensures t + l + |rec.payload| <= |old(buf.Contents())|
    ensures buf.Contents() == old(buf.Contents())[t + l + |rec.payload|..]
    ensures buf.totalLen == |buf.Contents()|
  {
    hide EncodesRecord;
    hide Plain;
    var dst := new Evbuffer();
    NewPlain(dst);
    ApartFromNew(buf, dst);
    RecordPayload(buf.Contents(), rec, t, l);
    var r := Unmarshal(buf, dst);
    LengthIs(buf);
    LengthIs(dst);
    assert dst.Contents() == [] + rec.payload == rec.payload;
    var payload := PeekAll(dst);
    out := Record(r.tag, payload);
  }

  method PeekAll(buf: Evbuffer) returns (out: seq<Byte>)
    requires Plain(buf)
    ensures out == buf.Contents()
  {
    hide Segment;
    hide Flat;
    hide LastWithData;
    var r;
    r, out := buf.Copyout(buf.totalLen);
    assert buf.Contents()[..buf.totalLen] == buf.Contents();
  }

  /** Reads records until the buffer is empty. */
  method ReadStream(buf: Evbuffer, ghost records: seq<Record>) returns (out: seq<Record>)
    requires Plain(buf) && EncodesStream(buf.Contents(), records)
    requires forall rec | rec in records :: |rec.payload| < INT_LIMIT
    modifies buf, buf.cells
    ensures out == records && Plain(buf) && buf.Contents() == []
  {
    hide EncodesRecord;
    hide EncodesStream;
    hide Plain;
    out := [];
    ghost var rest := records;
    LengthIs(buf);
    while buf.totalLen > 0
      invariant Plain(buf) && buf.totalLen == |buf.Contents()|
      invariant forall c | c in buf.cells && c !in old(buf.cells) :: fresh(c)
      invariant EncodesStream(buf.Contents(), rest) && records == out + rest
      decreases |rest|
    {
      ghost var t, l := StreamFirst(buf.Contents(), rest);
      var rec := ReadOne(buf, rest[0], t, l);
      assert out + rest == out + [rest[0]] + rest[1..];
      out, rest := out + [rec], rest[1..];
    }
    StreamEmpty(rest);
    assert out + [] == out;
  }

  lemma NewPlain(buf: Evbuffer)
    requires buf.Valid() && buf.TailClean() && buf.cells == {} && !buf.freezeStart && !buf.freezeEnd
    ensures Plain(buf)
  {
  }

  lemma ApartFromNew(a: Evbuffer, b: Evbuffer)
    requires a != b && b.cells == {}
    ensures a.Apart(b) && b.Apart(a)
  {
  }

  lemma StreamNone()
    ensures EncodesStream([], [])
  {
  }

  lemma StreamEmpty(records: seq<Record>)
    requires EncodesStream([], records)
    ensures records == []
  {
    forall rec: Record, t: nat, l: nat ensures !EncodesRecord([], rec, t, l) {
    }
  }

  lemma StreamParts(s: seq<Byte>, records: seq<Record>) returns (t: nat, l: nat)
    requires EncodesStream(s, records) && records != []
    ensures EncodesRecord(s, records[0], t, l) && t + l + |records[0].payload| <= |s|
    ensures EncodesStream(s[t + l + |records[0].payload|..], records[1..])
  {
    t, l :| EncodesRecord(s, records[0], t, l) && EncodesStream(s[t + l + |records[0].payload|..], records[1..]);
  }

  lemma StreamFirst(s: seq<Byte>, records: seq<Record>) returns (t: nat, l: nat)
    requires EncodesStream(s, records) && s != []
    ensures records != [] && EncodesRecord(s, records[0], t, l) && t + l + |records[0].payload| <= |s|
    ensures EncodesStream(s[t + l + |records[0].payload|..], records[1..])
  {
    t, l :| EncodesRecord(s, records[0], t, l) && EncodesStream(s[t + l + |records[0].payload|..], records[1..]);
  }
}
