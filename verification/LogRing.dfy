/** The log's wrap-around buffer (log.cpp): log_printf writes at one offset, and the log
    thread writes to the file what lies before it.  Each of them is one step here. */
module LogRing {
  import opened Bytes

  const NEWLINE: Byte := 10

  class Ring {
    const size: nat
    const buf: array<Byte>
    var writeOffset: nat
    var readOffset: nat
    /** All that was accepted, and all that has gone to the file. */
    ghost var accepted: seq<Byte>
    ghost var file: seq<Byte>

    ghost predicate Bounds()
      reads this
    {
      buf.Length == size > 0 && writeOffset < size && readOffset < size
    }

    /** The bytes that wait for the log thread. */
    ghost function Pending(): seq<Byte>
      requires Bounds()
      reads this, buf
    {
      Between(buf[..], readOffset, writeOffset)
    }

    /** What was accepted is in the file or waits, in order, and one byte is always free. */
    ghost predicate Valid()
      reads this, buf
    {
      Bounds() && accepted == file + Pending() && |Pending()| < size
    }

    constructor (size: nat)
      requires size > 0
      ensures Valid() && this.size == size && accepted == [] == file && fresh(buf) && writeOffset == 0
    {
      this.size := size;
      buf := new Byte[size](_ => 0);
      writeOffset, readOffset, accepted, file := 0, 0, [], [];
    }

    /** How many bytes fit, before one byte that stays free. */
    function Room(): nat
      requires Bounds()
      reads this
    {
      size - (writeOffset - readOffset + size) % size - 1
    }

    lemma RoomIs()
      requires Bounds()
      ensures Room() == size - |Pending()| - 1
    {
      if readOffset <= writeOffset {
        assert writeOffset - readOffset + size == (writeOffset - readOffset) + 1 * size;
        assert (writeOffset - readOffset + size) % size == writeOffset - readOffset;
      }
    }

    /** The end of log_printf. */
    method Log(entry: seq<Byte>)
      requires Valid() && entry != []
      modifies buf, `writeOffset, `accepted
      ensures Valid() && file == old(file)
      ensures accepted == old(accepted) + Fitted(entry, old(Room()))
      ensures Pending() == old(Pending()) + Fitted(entry, old(Room()))
      ensures writeOffset == (old(writeOffset) + |Fitted(entry, old(Room()))|) % size
    {
      RoomIs();
      var left := size - (writeOffset - readOffset + size) % size;
      var text := entry;
      if |text| > left - 1 {
        if left - 1 > 0 {
          text := text[..left - 2] + [NEWLINE];
        } else {
          text := [];
        }
      }
      Append(text);
      accepted := accepted + text;
    }

    /** Copies a text that fits behind the write offset, round the end if need be. */
    method Append(text: seq<Byte>)
      requires Bounds() && |text| <= Room()
      modifies buf, `writeOffset
      ensures Bounds() && Pending() == old(Pending()) + text
      ensures writeOffset == (old(writeOffset) + |text|) % size
    {
      hide Between;
      hide Over;
      RoomIs();
      WrapOnce(writeOffset + |text|, size);
      ghost var b := buf[..];
      if writeOffset + |text| < size {
        Copy(writeOffset, text);
        AppendStraight(b, readOffset, writeOffset, text);
      } else {
        Copy(writeOffset, text[..size - writeOffset]);
        Copy(0, text[size - writeOffset..]);
        AppendRound(b, readOffset, writeOffset, text);
      }
      writeOffset := (writeOffset + |text|) % size;
    }

    /** memcpy into the buffer. */
    method Copy(at: nat, text: seq<Byte>)
      requires buf.Length == size && at + |text| <= size
      modifies buf
      ensures buf[..] == Over(old(buf[..]), at, text)
    {
      forall i | 0 <= i < |text| {
        buf[at + i] := text[i];
      }
    }

    /** How many unread bytes lie in one piece from the read offset on. */
    function Stretch(): nat
      requires Bounds()
      reads this
    {
      if readOffset <= writeOffset then writeOffset - readOffset else size - readOffset
    }

    /** The part of log_thread_loop that writes the file.  fwrite takes some bytes of the
        first stretch, and then some of the second.  Where there is a second, and not all of
        the first is taken, its length is negative and it is written from outside the ring. */
    method Drain(first: nat, second: nat) returns (outside: bool)
      requires Valid() && first <= Stretch() && second <= |Pending()| - Stretch()
      modifies `readOffset, `file
      ensures outside <==> old(readOffset > writeOffset && first < Stretch())
      ensures !outside ==> Valid() && accepted == old(accepted)
      ensures var n := first + second;
        !outside ==>
          && n <= |old(Pending())| && file == old(file) + old(Pending())[..n]
          && Pending() == old(Pending())[n..]
    {
      hide Between;
      PiecesOf(buf[..], readOffset, writeOffset);
      ghost var b, r, was := buf[..], readOffset, Pending();
      Split(file, was, first + second);
      if writeOffset != readOffset {
        if writeOffset > readOffset {
          TakeStraight(b, r, writeOffset, first);
          Out(first);
        } else {
          Out(first);
          if writeOffset < readOffset {
            return true;
          }
          TakeRound(b, r, writeOffset, second);
          Out(second);
          Regroup(old(file), b[r..], b[..second]);
        }
      } else {
        TakeStraight(b, r, writeOffset, 0);
      }
      outside := false;
      assert file == old(file) + was[..first + second];
      assert Pending() == was[first + second..];
    }

    /** fwrite from the read offset, and its advance. */
    method Out(n: nat)
      requires Bounds() && readOffset + n <= size
      modifies `readOffset, `file
      ensures Bounds() && file == old(file) + buf[old(readOffset)..old(readOffset) + n]
      ensures readOffset == if old(readOffset) + n == size then 0 else old(readOffset) + n
    {
      file := file + buf[readOffset..readOffset + n];
      readOffset := (readOffset + n) % size;
    }
  }

  /** The bytes of a ring from one offset up to another. */
  function Between(b: seq<Byte>, r: nat, w: nat): seq<Byte>
    requires r < |b| && w < |b|
  {
    if r <= w then b[r..w] else b[r..] + b[..w]
  }

  lemma Split(file: seq<Byte>, pending: seq<Byte>, n: nat)
    requires n <= |pending|
    ensures file + pending == file + pending[..n] + pending[n..]
  {
    assert pending == pending[..n] + pending[n..];
  }

  lemma PiecesOf(b: seq<Byte>, r: nat, w: nat)
    requires r < |b| && w < |b|
    ensures |Between(b, r, w)| == if r <= w then w - r else |b| - r + w
  {
  }

  lemma TakeStraight(b: seq<Byte>, r: nat, w: nat, n: nat)
    requires r + n <= w < |b|
    ensures |Between(b, r, w)| == w - r
    ensures Between(b, r, w)[..n] == b[r..r + n] && Between(b, r, w)[n..] == Between(b, r + n, w)
  {
  }

  lemma TakeRound(b: seq<Byte>, r: nat, w: nat, n: nat)
    requires n <= w < r < |b|
    ensures |Between(b, r, w)| == |b| - r + w
    ensures Between(b, r, w)[..|b| - r + n] == b[r..] + b[..n] && Between(b, r, w)[|b| - r + n..] == Between(b, n, w)
  {
  }

  lemma WrapOnce(x: nat, n: nat)
    requires n > 0 && x < 2 * n
    ensures x % n == if x < n then x else x - n
  {
  }

  lemma JoinHalves(a: seq<Byte>, text: seq<Byte>, n: nat)
    requires n <= |text|
    ensures a + text[..n] + text[n..] == a + text
  {
    assert text == text[..n] + text[n..];
  }

  /** Bytes with others written over some of them. */
  function Over(b: seq<Byte>, at: nat, x: seq<Byte>): (r: seq<Byte>)
    requires at + |x| <= |b|
    ensures |r| == |b|
  {
    b[..at] + x + b[at + |x|..]
  }

  lemma OverAt(b: seq<Byte>, at: nat, x: seq<Byte>, i: nat)
    requires at + |x| <= i <= |b|
    ensures Over(b, at, x)[..at + |x|] == b[..at] + x
    ensures Over(b, at, x)[i..] == b[i..]
  {
  }

  lemma AppendStraight(b: seq<Byte>, r: nat, w: nat, text: seq<Byte>)
    requires r < |b| && w + |text| < |b| && |Between(b, r, w)| + |text| < |b|
    ensures Between(Over(b, w, text), r, w + |text|) == Between(b, r, w) + text
  {
    hide Over;
    if r <= w {
      OverAt(b, w, text, w + |text|);
      assert Over(b, w, text)[r..w + |text|] == Over(b, w, text)[..w + |text|][r..];
      assert (b[..w] + text)[r..] == b[r..w] + text;
    } else {
      OverAt(b, w, text, r);
      assert b[r..] + (b[..w] + text) == b[r..] + b[..w] + text;
    }
  }

  lemma AppendRound(b: seq<Byte>, r: nat, w: nat, text: seq<Byte>)
    requires r < |b| && w < |b| <= w + |text| && |Between(b, r, w)| + |text| < |b|
    ensures var n := |b| - w;
      && |text| - n < |b|
      && Between(Over(Over(b, w, text[..n]), 0, text[n..]), r, |text| - n) == Between(b, r, w) + text
  {
    hide Over;
    var n := |b| - w;
    assert r <= w && |text| - n < r;
    var c := Over(b, w, text[..n]);
    OverEnd(b, w, text[..n], r);
    OverAt(c, 0, text[n..], r);
    assert c[..0] + text[n..] == text[n..];
    JoinHalves(b[r..w], text, n);
    Regroup(b[r..w], text[..n], text[n..]);
  }

  /** Written over up to the end, seen from a place before. */
  lemma OverEnd(b: seq<Byte>, at: nat, x: seq<Byte>, r: nat)
    requires r <= at && at + |x| == |b|
    ensures Over(b, at, x)[r..] == b[r..at] + x
  {
  }

  /** An entry, cut so that it fits with a newline at its end, or dropped. */
  function Fitted(entry: seq<Byte>, room: nat): (r: seq<Byte>)
    ensures |r| == if |entry| <= room then |entry| else room
    ensures r != [] ==> r[..|r| - 1] <= entry
    ensures (|entry| <= room ==> r == entry) && (r != [] && r != entry ==> r[|r| - 1] == NEWLINE)
  {
    if |entry| <= room then entry
    else if room > 0 then entry[..room - 1] + [NEWLINE]
    else []
  }

  /** Two bytes wait on both sides of the end of the ring, and the first write takes none. */
  method ShortWriteOutside() returns (outside: bool)
    ensures outside
  {
    var ring := new Ring(4);
    OffsetsSay(ring);
    ring.RoomIs();
    ring.Log([1, 2, 3]);
    outside := ring.Drain(3, 0);
    OffsetsSay(ring);
    ring.RoomIs();
    ring.Log([1, 2]);
    outside := ring.Drain(0, 0);
  }

  /** Nothing is unread when the offsets are the same, and what does not go round the end is
      one stretch. */
  lemma OffsetsSay(ring: Ring)
    requires ring.Bounds()
    ensures ring.Pending() == [] <==> ring.readOffset == ring.writeOffset
    ensures ring.readOffset <= ring.writeOffset ==> ring.Stretch() == |ring.Pending()|
  {
  }
}
