/** Lists of pieces of data, of which the k-th is the last with data. */
module Pieces {
  import opened Bytes

  /** Piece k is the last with data, and every piece before it has data. */
  ghost predicate LastWithData(datas: seq<seq<Byte>>, k: nat)
  {
    && (forall i | 0 <= i < |datas| && i < k :: datas[i] != [])
    && (0 < k < |datas| ==> datas[k] != [])
    && (forall i | k < i < |datas| :: datas[i] == [])
  }

  /** The index of the first empty piece from the last with data on. */
  ghost function Victim(datas: seq<seq<Byte>>, k: nat): nat
  {
    if k < |datas| && datas[k] != [] then k + 1 else k
  }

  /** The same, whether or not piece k is the last with data. */
  ghost function FirstEmpty(datas: seq<seq<Byte>>, k: nat): (v: nat)
    ensures k <= v && (k <= |datas| ==> v <= |datas|) && (v < |datas| ==> datas[v] == [])
    ensures forall i | k <= i < v :: i < |datas| && datas[i] != []
    decreases |datas| - k
  {
    if k < |datas| && datas[k] != [] then FirstEmpty(datas, k + 1) else k
  }

  /** What evbuffer_chains_all_empty asks, from piece v on. */
  ghost predicate EmptyFrom(datas: seq<seq<Byte>>, v: nat)
  {
    forall i | v <= i < |datas| :: datas[i] == []
  }

  lemma VictimIs(datas: seq<seq<Byte>>, k: nat)
    requires LastWithData(datas, k)
    ensures FirstEmpty(datas, k) == Victim(datas, k) && EmptyFrom(datas, Victim(datas, k))
  {
    if k < |datas| && datas[k] != [] {
      assert FirstEmpty(datas, k + 1) == k + 1;
    }
  }

  /** Bytes put in the last piece, which is empty and comes after the last with data: unless
      it is the next one, an empty piece is then followed by data. */
  lemma UncleanAppend(datas: seq<seq<Byte>>, k: nat, x: seq<Byte>, y: seq<Byte>)
    requires LastWithData(datas, k) && k + 1 < |datas| && x != [] && y != []
    ensures var grown := datas[|datas| - 1 := x];
      if Victim(datas, k) < |datas| - 1 then
        !EmptyFrom(grown, FirstEmpty(grown, k))
      else
        FirstEmpty(grown, k) == |datas| && LastWithData(grown + [y], |datas|)
  {
    var n := |datas| - 1;
    var grown := datas[n := x];
    if Victim(datas, k) < n {
      assert FirstEmpty(grown, k) == Victim(datas, k) by {
        if datas[k] != [] {
          assert grown[k] != [] && grown[k + 1] == [];
        }
      }
      assert grown[n] != [];
    } else {
      assert FirstEmpty(grown, n) == n + 1;
    }
  }

  /** Putting a piece in the place of the empty ones after the last with data. */
  lemma InsertKeepsLast(datas: seq<seq<Byte>>, k: nat, x: seq<Byte>)
    requires LastWithData(datas, k) && (k < |datas| || k == 0)
    ensures var v := Victim(datas, k);
      && v <= |datas|
      && var moved := if v == |datas| && x != [] then v else k;
      && moved <= v
      && (LastWithData(datas[..v] + [x], moved) <==> (|datas| <= k + 1 || v == k || x == []))
      && (v + 1 <= moved + 1 <==> (v == k || (|datas| <= k + 1 && x != [])))
  {
    var v := Victim(datas, k);
    if v < |datas| && x != [] && v == k + 1 {
      assert (datas[..v] + [x])[v] == x;
    }
  }

  lemma GrowKeepsLast(datas: seq<seq<Byte>>, k: nat, i: nat, x: seq<Byte>)
    requires i < |datas|
    ensures LastWithData(datas, k) && i <= k && (datas[i] != [] ==> x != []) ==> LastWithData(datas[i := x], k)
    ensures LastWithData(datas[i := x], k) && i == k ==> forall j | i < j < |datas| :: datas[j] == []
  {
    if LastWithData(datas[i := x], k) && i == k {
      assert forall j | i < j < |datas| :: datas[j] == datas[i := x][j];
    }
  }

  lemma PushKeepsLast(datas: seq<seq<Byte>>, k: nat, x: seq<Byte>)
    requires LastWithData(datas, k) && k < |datas|
    ensures LastWithData([x] + datas, k + 1) <==> (x != [] && datas[0] != [])
  {
    assert ([x] + datas)[0] == x && ([x] + datas)[k + 1] == datas[k];
  }

  /** If there is any data, piece k has some, and none comes after it. */
  lemma HasData(datas: seq<seq<Byte>>, k: nat)
    requires LastWithData(datas, k) && Flat(datas) != [] && (k < |datas| || k == 0)
    ensures k < |datas| && datas[k] != []
  {
    if k < |datas| && datas[k] == [] {
      FlatEmpties(datas);
    }
  }

  /** The pieces up to the last with data hold all the bytes. */
  lemma BeforeLast(datas: seq<seq<Byte>>, k: nat, i: nat)
    requires LastWithData(datas, k) && i <= |datas| && |Flat(datas[..i])| < |Flat(datas)|
    ensures i <= k
  {
    if i > k {
      FlatEmptyFrom(datas, i);
      FlatCut(datas, i);
    }
  }

  lemma SuffixKeepsLast(datas: seq<seq<Byte>>, k: nat, i: nat)
    requires LastWithData(datas, k) && i <= k < |datas|
    ensures LastWithData(datas[i..], k - i)
  {
  }

  /** Joining two lists, each with data, keeps data before empties unless the first
      ends in empty pieces. */
  lemma JoinKeepsLast(a: seq<seq<Byte>>, ka: nat, b: seq<seq<Byte>>, kb: nat)
    requires LastWithData(a, ka) && ka < |a| && a[ka] != []
    requires LastWithData(b, kb) && kb < |b| && b[kb] != []
    ensures LastWithData(a + b, |a| + kb) <==> |a| <= ka + 1
    ensures Flat(a + b) == Flat(a) + Flat(b)
  {
    hide Flat;
    FlatConcat(a, b);
    assert (a + b)[|a| + kb] == b[kb];
    if ka + 1 < |a| {
      assert (a + b)[ka + 1] == a[ka + 1] == [];
    }
  }

  /** Putting a run of pieces with data in the place of the trailing empty ones. */
  lemma InsertRunLast(datas: seq<seq<Byte>>, k: nat, run: seq<seq<Byte>>)
    requires LastWithData(datas, k) && (k < |datas| || k == 0) && run != []
    requires forall i | 0 <= i < |run| :: run[i] != []
    ensures var v := Victim(datas, k);
      && k <= v <= |datas|
      && LastWithData(datas[..v] + run, v + |run| - 1)
      && Flat(datas[..v] + run) == Flat(datas) + Flat(run)
      && (forall j | k < j < |datas[..v] + run| :: (datas[..v] + run)[j] != [])
  {
    var v := Victim(datas, k);
    FlatCut(datas, v);
    FlatEmptyFrom(datas, v);
    FlatConcat(datas[..v], run);
  }

  lemma PrefixHasData(datas: seq<seq<Byte>>, k: nat, i: nat)
    requires LastWithData(datas, k) && i <= k < |datas|
    ensures forall j | 0 <= j < |datas[..i]| :: datas[..i][j] != []
    ensures i > 0 <==> Flat(datas[..i]) != []
  {
    if i > 0 {
      assert datas[..i][0] != [];
    }
  }

  /** The bytes pulled together, and the pieces from j on less the first bytes of
      piece j, spell what the pieces did. */
  lemma Pulled(pieces: seq<seq<Byte>>, k: nat, n: nat, j: nat, rest: nat, x: seq<Byte>)
    requires LastWithData(pieces, k) && 0 < k < |pieces|
    requires j <= |pieces| && |Flat(pieces[..j])| + rest == n <= |Flat(pieces)|
    requires if j < |pieces| then rest < |pieces[j]| else rest == 0
    requires x == Flat(pieces)[..n] && x != []
    ensures var left := if j < |pieces| then pieces[j..][0 := pieces[j][rest..]] else [];
      && Flat([x] + left) == Flat(pieces)
      && LastWithData([x] + left, if j > k then 0 else k - j + 1)
      && (j > k ==> j == |pieces|)
  {
    hide Flat;
    FlatOne(x);
    FlatPrefix(pieces, j);
    if j < |pieces| {
      var left := pieces[j..][0 := pieces[j][rest..]];
      FlatDropPrefix(pieces, j, n);
      FlatTrim(pieces[j..], rest);
      FlatConcat([x], left);
      SuffixKeepsLast(pieces, k, j);
      GrowKeepsLast(pieces[j..], k - j, 0, pieces[j][rest..]);
      PushKeepsLast(left, k - j, x);
    } else {
      assert [x] + [] == [x];
    }
  }

  lemma EmptyAfter(datas: seq<seq<Byte>>, k: nat, i: nat)
    requires LastWithData(datas, k) && k < i < |datas|
    ensures datas[i] == []
  {
  }

  lemma AppendNothing(datas: seq<seq<Byte>>, i: nat)
    requires i < |datas|
    ensures datas[i := datas[i] + []] == datas
  {
    assert datas[i] + [] == datas[i];
  }

  lemma AppendEmpty(datas: seq<seq<Byte>>, k: nat)
    requires LastWithData(datas, k) && k < |datas|
    ensures LastWithData(datas + [[]], k) && Flat(datas + [[]]) == Flat(datas)
  {
    FlatConcat(datas, [[]]);
    FlatOne([]);
  }
}
