/** Byte strings, and a buffer's contents as the concatenation of its pieces. */
module Bytes {
  type Byte = x: int | 0 <= x < 256

  /** The flat byte string held by a list of pieces. */
  ghost function Flat(parts: seq<seq<Byte>>): (r: seq<Byte>)
  {
    if parts == [] then [] else parts[0] + Flat(parts[1..])
  }

  lemma {:induction false} FlatConcat(a: seq<seq<Byte>>, b: seq<seq<Byte>>)
    ensures Flat(a + b) == Flat(a) + Flat(b)
  {
    if a == [] {
      assert a + b == b;
    } else {
      FlatConcat(a[1..], b);
      FlatFront(a);
      FlatFront(a + b);
      assert (a + b)[1..] == a[1..] + b;
      Regroup(a[0], Flat(a[1..]), Flat(b));
      hide Flat;
    }
  }

  lemma Regroup(a: seq<Byte>, b: seq<Byte>, c: seq<Byte>)
    ensures a + (b + c) == a + b + c
  {
  }

  lemma FlatFront(parts: seq<seq<Byte>>)
    requires parts != []
    ensures Flat(parts) == parts[0] + Flat(parts[1..])
  {
  }

  lemma FlatOne(x: seq<Byte>)
    ensures Flat([x]) == x
  {
    assert Flat([x]) == x + Flat([]);
  }

  lemma {:induction false} FlatEmpties(parts: seq<seq<Byte>>)
    requires forall i | 0 <= i < |parts| :: parts[i] == []
    ensures Flat(parts) == []
  {
    if parts != [] {
      FlatEmpties(parts[1..]);
    }
  }

  /** The bytes up to and including piece i, and from piece i on. */
  lemma FlatTake(parts: seq<seq<Byte>>, i: nat)
    requires i < |parts|
    ensures Flat(parts[..i + 1]) == Flat(parts[..i]) + parts[i]
  {
    FlatConcat(parts[..i], [parts[i]]);
    FlatOne(parts[i]);
    assert parts[..i + 1] == parts[..i] + [parts[i]];
  }

  lemma FlatDrop(parts: seq<seq<Byte>>, i: nat)
    requires i < |parts|
    ensures Flat(parts[i..]) == parts[i] + Flat(parts[i + 1..])
  {
    assert parts[i..][1..] == parts[i + 1..];
  }

  lemma FlatCut(parts: seq<seq<Byte>>, i: nat)
    requires i <= |parts|
    ensures Flat(parts) == Flat(parts[..i]) + Flat(parts[i..])
  {
    hide Flat;
    FlatConcat(parts[..i], parts[i..]);
    assert parts == parts[..i] + parts[i..];
  }

  /** A list of pieces split around position i. */
  lemma FlatSplit(parts: seq<seq<Byte>>, i: nat)
    requires i < |parts|
    ensures Flat(parts) == Flat(parts[..i]) + parts[i] + Flat(parts[i + 1..])
  {
    FlatCut(parts, i);
    FlatDrop(parts, i);
    assert Flat(parts[..i]) + (parts[i] + Flat(parts[i + 1..])) == Flat(parts[..i]) + parts[i] + Flat(parts[i + 1..]);
  }

  /** Replacing piece i leaves the bytes before and after it. */
  lemma FlatUpdate(parts: seq<seq<Byte>>, i: nat, x: seq<Byte>)
    requires i < |parts|
    ensures Flat(parts[i := x]) == Flat(parts[..i]) + x + Flat(parts[i + 1..])
  {
    var q := parts[i := x];
    FlatSplit(q, i);
    assert q[..i] == parts[..i];
    assert q[i + 1..] == parts[i + 1..];
  }

  /** Putting a piece in the place of trailing empty ones appends it. */
  lemma FlatReplaceTail(parts: seq<seq<Byte>>, v: nat, x: seq<Byte>)
    requires v <= |parts|
    requires forall i | v <= i < |parts| :: parts[i] == []
    ensures Flat(parts[..v] + [x]) == Flat(parts) + x
  {
    hide Flat;
    var before := Flat(parts[..v]);
    FlatCut(parts, v);
    FlatEmpties(parts[v..]);
    assert before + [] == before;
    FlatConcat(parts[..v], [x]);
    FlatOne(x);
  }

  lemma FlatEmptyFrom(parts: seq<seq<Byte>>, i: nat)
    requires i <= |parts|
    ensures (forall j | i <= j < |parts| :: parts[j] == []) ==> Flat(parts[i..]) == []
  {
    if forall j | i <= j < |parts| :: parts[j] == [] {
      FlatEmpties(parts[i..]);
    }
  }

  /** Growing piece i at its end. */
  lemma FlatGrow(parts: seq<seq<Byte>>, i: nat, x: seq<Byte>)
    requires i < |parts|
    ensures |Flat(parts[i := parts[i] + x])| == |Flat(parts)| + |x|
    ensures (forall j | i < j < |parts| :: parts[j] == []) ==> Flat(parts[i := parts[i] + x]) == Flat(parts) + x
  {
    var before, after := Flat(parts[..i]), Flat(parts[i + 1..]);
    FlatUpdate(parts, i, parts[i] + x);
    FlatSplit(parts, i);
    FlatEmptyFrom(parts, i + 1);
    if after == [] {
      assert before + (parts[i] + x) + [] == before + parts[i] + [] + x;
    }
  }

  lemma AppendInTwo(a: seq<Byte>, x: seq<Byte>, n: nat)
    requires n <= |x|
    ensures a + x[..n] + x[n..] == a + x
  {
    assert x == x[..n] + x[n..];
  }

  /** Growing the first piece at its front. */
  lemma FlatGrowFront(parts: seq<seq<Byte>>, x: seq<Byte>)
    requires parts != []
    ensures Flat(parts[0 := x + parts[0]]) == x + Flat(parts)
  {
    FlatUpdate(parts, 0, x + parts[0]);
    FlatSplit(parts, 0);
    assert parts[..0] == [];
    var rest := Flat(parts[1..]);
    assert [] + (x + parts[0]) + rest == x + ([] + parts[0] + rest);
  }

  lemma FlatNothing()
    ensures Flat([]) == []
  {
  }

  /** Dropping the first bytes of the first piece. */
  lemma FlatTrim(parts: seq<seq<Byte>>, n: nat)
    requires parts != [] && n <= |parts[0]|
    ensures |Flat(parts)| >= n && Flat(parts[0 := parts[0][n..]]) == Flat(parts)[n..]
  {
    assert parts[0 := parts[0][n..]][1..] == parts[1..];
  }

  /** Dropping whole pieces, then the first bytes of the next one. */
  lemma FlatDropPrefix(parts: seq<seq<Byte>>, i: nat, n: nat)
    requires i < |parts| && |Flat(parts[..i])| <= n <= |Flat(parts[..i])| + |parts[i]|
    ensures n <= |Flat(parts)| == |Flat(parts[..i])| + |Flat(parts[i..])|
    ensures Flat(parts[i..])[n - |Flat(parts[..i])|..] == Flat(parts)[n..]
  {
    FlatCut(parts, i);
    FlatDrop(parts, i);
  }

  lemma FlatPrefix(parts: seq<seq<Byte>>, i: nat)
    requires i <= |parts|
    ensures Flat(parts[..i]) <= Flat(parts)
    ensures i == |parts| ==> Flat(parts[..i]) == Flat(parts)
  {
    hide Flat;
    FlatCut(parts, i);
    if i == |parts| {
      assert parts[..i] == parts;
    }
  }

  lemma FlatGrows(parts: seq<seq<Byte>>, i: nat, j: nat)
    requires i <= j <= |parts|
    ensures |Flat(parts[..i])| <= |Flat(parts[..j])|
  {
    assert parts[..j][..i] == parts[..i];
    FlatPrefix(parts[..j], i);
  }

  lemma FlatFirst(parts: seq<seq<Byte>>, i: nat)
    requires 0 < i <= |parts|
    ensures |parts[0]| <= |Flat(parts[..i])|
  {
    assert parts[..i][0] == parts[0];
  }

  lemma SliceOfSlice(s: seq<Byte>, a: nat, n: nat, b: nat, m: nat)
    requires a + n <= |s| && b + m <= n
    ensures s[a..a + n][b..b + m] == s[a + b..a + b + m]
  {
    var x, y := s[a..a + n][b..b + m], s[a + b..a + b + m];
    assert forall i | 0 <= i < m :: x[i] == y[i];
  }

  /** Bytes written just after a stretch of memory. */
  lemma WrittenAfter(m: seq<Byte>, at: nat, n: nat, x: seq<Byte>)
    requires at + n + |x| <= |m|
    ensures (m[..at + n] + x + m[at + n + |x|..])[at..at + n + |x|] == m[at..at + n] + x
  {
    var head := m[..at + n] + x;
    assert (head + m[at + n + |x|..])[at..|head|] == head[at..];
    assert head[at..] == m[at..at + n] + x;
  }

  /** Bytes written just before one. */
  lemma WrittenBefore(m: seq<Byte>, at: nat, n: nat, x: seq<Byte>)
    requires |x| <= at && at + n <= |m|
    ensures (m[..at - |x|] + x + m[at..])[at - |x|..at + n] == x + m[at..at + n]
  {
    var tail := x + m[at..];
    assert m[..at - |x|] + x + m[at..] == m[..at - |x|] + tail;
    assert (m[..at - |x|] + tail)[at - |x|..at + n] == tail[..|x| + n];
  }

  lemma PrefixInPiece(all: seq<Byte>, a: seq<Byte>, piece: seq<Byte>, n: nat)
    requires a + piece <= all && n <= |piece|
    ensures all[..|a| + n] == a + piece[..n]
  {
    assert (a + piece)[..|a| + n] == a + piece[..n];
  }

  /** Taking one more whole piece. */
  lemma TakeOne(parts: seq<seq<Byte>>, i: nat, skip: nat)
    requires i < |parts| && skip <= |Flat(parts[..i])|
    ensures |Flat(parts[..i + 1])| == |Flat(parts[..i])| + |parts[i]| && Flat(parts[..i + 1]) <= Flat(parts)
    ensures Flat(parts[..i])[skip..] + parts[i] == Flat(parts[..i + 1])[skip..]
  {
    hide Flat;
    FlatTake(parts, i);
    FlatPrefix(parts, i + 1);
  }

  /** Taking whole pieces, then the first bytes of the next one. */
  lemma FlatTakePrefix(parts: seq<seq<Byte>>, i: nat, n: nat)
    requires i < |parts| && |Flat(parts[..i])| <= n <= |Flat(parts[..i])| + |parts[i]|
    ensures n <= |Flat(parts)|
    ensures Flat(parts[..i]) + parts[i][..n - |Flat(parts[..i])|] == Flat(parts)[..n]
  {
    FlatTake(parts, i);
    FlatPrefix(parts, i + 1);
    PrefixInPiece(Flat(parts), Flat(parts[..i]), parts[i], n - |Flat(parts[..i])|);
  }

  lemma TailOfPrefix(all: seq<Byte>, a: seq<Byte>, x: seq<Byte>, skip: nat)
    requires a + x <= all && skip <= |a|
    ensures all[skip..|a| + |x|] == a[skip..] + x
  {
    assert all[..|a| + |x|] == a + x;
    assert all[skip..|a| + |x|] == all[..|a| + |x|][skip..];
  }
}
