/** Memory in groups that can be freed at once: doubly linked blocks (mem.cpp). */
module Mem {
  const SIG := 0xba1da5b3

  class Block {
    var prev: Block?
    var next: Block?
    var data: nat
    var sig: nat

    constructor ()
    {
    }
  }

  /** The links of a block, and the group it is in. */
  datatype Links = Links(prev: Block?, next: Block?, sig: nat)

  ghost function Nth(g: seq<Block>, i: int): Block?
  {
    if 0 <= i < |g| then g[i] else null
  }

  /** Block i of a group is linked to its neighbours. */
  ghost predicate LinkedAt(m: map<Block, Links>, g: seq<Block>, i: nat)
  {
    i < |g| ==> g[i] in m && m[g[i]] == Links(Nth(g, i - 1), Nth(g, i + 1), SIG)
  }

  ghost predicate Group(m: map<Block, Links>, g: seq<Block>)
  {
    forall i: nat :: LinkedAt(m, g, i)
  }

  ghost predicate Once(g: seq<Block>)
  {
    forall i, j | 0 <= i < j < |g| :: g[i] != g[j]
  }

  /** The blocks are partitioned into groups, each a doubly linked list. */
  ghost predicate Partitioned(m: map<Block, Links>, own: map<Block, nat>, groups: seq<seq<Block>>)
  {
    && own.Keys == m.Keys
    && (forall b | b in own :: own[b] < |groups| && b in groups[own[b]])
    && (forall k | 0 <= k < |groups| :: Group(m, groups[k]) && Once(groups[k]) && Owns(own, groups[k], k))
  }

  ghost predicate Owns(own: map<Block, nat>, g: seq<Block>, k: nat)
  {
    forall b | b in g :: b in own && own[b] == k
  }

  /** A group whose blocks keep their links. */
  lemma Unaffected(m: map<Block, Links>, g: seq<Block>, m': map<Block, Links>)
    requires Group(m, g) && forall b | b in g && b in m :: b in m' && m'[b] == m[b]
    ensures Group(m', g)
  {
    forall i: nat ensures LinkedAt(m', g, i) {
      assert LinkedAt(m, g, i);
    }
  }

  lemma GroupAt(m: map<Block, Links>, own: map<Block, nat>, groups: seq<seq<Block>>, k: nat, i: nat)
    requires Partitioned(m, own, groups) && k < |groups|
    ensures LinkedAt(m, groups[k], i) && Once(groups[k]) && Owns(own, groups[k], k)
    ensures i < |groups[k]| ==> groups[k][i] in own && own[groups[k][i]] == k
  {
    assert Group(m, groups[k]);
    assert i < |groups[k]| ==> groups[k][i] in groups[k];
  }

  /** One group is replaced by another that is a list, with nothing else changed. */
  lemma Regrouped(m: map<Block, Links>, own: map<Block, nat>, groups: seq<seq<Block>>, k: nat, g: seq<Block>,
        m': map<Block, Links>, own': map<Block, nat>)
    requires Partitioned(m, own, groups) && k < |groups| && own'.Keys == m'.Keys
    requires Group(m', g) && Once(g) && Owns(own', g, k)
    requires forall b | b in own && own[b] != k :: b in own' && own'[b] == own[b] && m'[b] == m[b]
    requires forall b | b in own' && (b !in own || own[b] == k) :: own'[b] == k && b in g
    ensures Partitioned(m', own', groups[k := g])
  {
    forall j | 0 <= j < |groups| && j != k
      ensures Group(m', groups[j]) && Once(groups[j]) && Owns(own', groups[j], j)
    {
      GroupAt(m, own, groups, j, 0);
      Unaffected(m, groups[j], m');
    }
  }

  lemma NewGroup(m: map<Block, Links>, own: map<Block, nat>, groups: seq<seq<Block>>, b: Block)
    requires Partitioned(m, own, groups) && b !in m
    ensures Partitioned(m[b := Links(null, null, SIG)], own[b := |groups|], groups + [[b]])
  {
    var m' := m[b := Links(null, null, SIG)];
    forall k | 0 <= k < |groups| ensures Group(m', groups[k]) && Owns(own[b := |groups|], groups[k], k) {
      Unaffected(m, groups[k], m');
    }
  }

  /** The links after a block is put in after block i of a group. */
  ghost function Linked(m: map<Block, Links>, base: Block, b: Block): map<Block, Links>
    requires base in m
  {
    var after := m[base].next;
    var m1 := m[base := m[base].(next := b)][b := Links(base, after, SIG)];
    if after != null && after in m1 then m1[after := m1[after].(prev := b)] else m1
  }

  lemma InsertedGroup(m: map<Block, Links>, g: seq<Block>, i: nat, b: Block)
    requires Group(m, g) && Once(g) && i < |g| && b !in m
    ensures g[i] in m && Group(Linked(m, g[i], b), g[..i + 1] + [b] + g[i + 1..]) && Once(g[..i + 1] + [b] + g[i + 1..])
  {
    assert LinkedAt(m, g, i) && LinkedAt(m, g, i + 1);
    var g', m' := g[..i + 1] + [b] + g[i + 1..], Linked(m, g[i], b);
    forall j: nat ensures LinkedAt(m', g', j) {
      assert LinkedAt(m, g, j) && (j > 0 ==> LinkedAt(m, g, j - 1));
    }
    forall j | 0 <= j < |g| ensures g[j] != b {
      assert LinkedAt(m, g, j);
    }
  }

  lemma InGrown<T>(g: seq<T>, i: nat, b: T, x: T)
    requires i <= |g|
    ensures x in g[..i] + [b] + g[i..] <==> x in g || x == b
  {
    assert g == g[..i] + g[i..];
  }

  lemma Inserted(m: map<Block, Links>, own: map<Block, nat>, groups: seq<seq<Block>>, k: nat, i: nat, b: Block)
    requires Partitioned(m, own, groups) && k < |groups| && i < |groups[k]| && b !in m
    ensures var g := groups[k];
      g[i] in m && Partitioned(Linked(m, g[i], b), own[b := k], groups[k := g[..i + 1] + [b] + g[i + 1..]])
  {
    var g := groups[k];
    GroupAt(m, own, groups, k, i);
    GroupAt(m, own, groups, k, i + 1);
    InsertedGroup(m, g, i, b);
    forall x ensures x in g[..i + 1] + [b] + g[i + 1..] <==> x in g || x == b {
      InGrown(g, i + 1, b, x);
    }
    Regrouped(m, own, groups, k, g[..i + 1] + [b] + g[i + 1..], Linked(m, g[i], b), own[b := k]);
  }

  /** The links after a block is taken out. */
  ghost function Unlinked(m: map<Block, Links>, c: Block): map<Block, Links>
    requires c in m
  {
    var l := m[c];
    var m1 := if l.next != null && l.next in m then m[l.next := m[l.next].(prev := l.prev)] else m;
    var m2 := if l.prev != null && l.prev in m1 then m1[l.prev := m1[l.prev].(next := l.next)] else m1;
    m2 - {c}
  }

  lemma RemovedGroup(m: map<Block, Links>, g: seq<Block>, i: nat)
    requires Group(m, g) && Once(g) && i < |g|
    ensures g[i] in m && Group(Unlinked(m, g[i]), g[..i] + g[i + 1..]) && Once(g[..i] + g[i + 1..])
  {
    assert LinkedAt(m, g, i) && LinkedAt(m, g, i + 1) && (i > 0 ==> LinkedAt(m, g, i - 1));
    var g', m' := g[..i] + g[i + 1..], Unlinked(m, g[i]);
    forall j: nat ensures LinkedAt(m', g', j) {
      assert LinkedAt(m, g, j) && LinkedAt(m, g, j + 1);
    }
  }

  lemma Removed(m: map<Block, Links>, own: map<Block, nat>, groups: seq<seq<Block>>, k: nat, i: nat)
    requires Partitioned(m, own, groups) && k < |groups| && i < |groups[k]|
    ensures var g := groups[k];
      g[i] in m && Partitioned(Unlinked(m, g[i]), own - {g[i]}, groups[k := g[..i] + g[i + 1..]])
  {
    var g := groups[k];
    var g' := g[..i] + g[i + 1..];
    GroupAt(m, own, groups, k, i);
    GroupAt(m, own, groups, k, i + 1);
    if i > 0 {
      GroupAt(m, own, groups, k, i - 1);
    }
    RemovedGroup(m, g, i);
    forall x ensures x in g' <==> x in g && x != g[i] {
      WithoutOne(g, i, x);
    }
    Regrouped(m, own, groups, k, g', Unlinked(m, g[i]), own - {g[i]});
  }

  lemma WithoutOne(g: seq<Block>, i: nat, x: Block)
    requires Once(g) && i < |g|
    ensures x in g[..i] + g[i + 1..] <==> x in g && x != g[i]
  {
    assert g == g[..i] + [g[i]] + g[i + 1..];
  }

  /** The links after a block moves to other memory. */
  ghost function Moved(m: map<Block, Links>, c: Block, b: Block): map<Block, Links>
    requires c in m
  {
    var l := m[c];
    var m1 := m[b := l] - {c};
    var m2 := if l.next != null && l.next in m1 then m1[l.next := m1[l.next].(prev := b)] else m1;
    if l.prev != null && l.prev in m2 then m2[l.prev := m2[l.prev].(next := b)] else m2
  }

  lemma MovedGroup(m: map<Block, Links>, g: seq<Block>, i: nat, b: Block)
    requires Group(m, g) && Once(g) && i < |g| && b !in m
    ensures g[i] in m && Group(Moved(m, g[i], b), g[i := b]) && Once(g[i := b])
  {
    assert LinkedAt(m, g, i) && LinkedAt(m, g, i + 1) && (i > 0 ==> LinkedAt(m, g, i - 1));
    var g', m' := g[i := b], Moved(m, g[i], b);
    forall j: nat ensures LinkedAt(m', g', j) {
      assert LinkedAt(m, g, j);
    }
    forall j | 0 <= j < |g| ensures g[j] != b {
      assert LinkedAt(m, g, j);
    }
  }

  lemma MovedElsewhere(m: map<Block, Links>, c: Block, b: Block)
    requires c in m && b !in m
    ensures Moved(m, c, b).Keys == m.Keys + {b} - {c}
    ensures forall x | x in m && x != c && x != m[c].prev && x != m[c].next :: Moved(m, c, b)[x] == m[x]
  {
  }

  lemma MovedAll(m: map<Block, Links>, own: map<Block, nat>, groups: seq<seq<Block>>, k: nat, i: nat, b: Block)
    requires Partitioned(m, own, groups) && k < |groups| && i < |groups[k]| && b !in m
    ensures var g := groups[k];
      g[i] in m && Partitioned(Moved(m, g[i], b), own[b := k] - {g[i]}, groups[k := g[i := b]])
  {
    hide Group;
    var g := groups[k];
    GroupAt(m, own, groups, k, i);
    GroupAt(m, own, groups, k, i + 1);
    if i > 0 {
      GroupAt(m, own, groups, k, i - 1);
    }
    MovedElsewhere(m, g[i], b);
    assert g[i] in m && m[g[i]] == Links(Nth(g, i - 1), Nth(g, i + 1), SIG);
    MovedGroup(m, g, i, b);
    forall x ensures x in g[i := b] <==> x == b || (x in g && x != g[i]) {
      Replaced(g, i, b, x);
    }
    hide Moved;
    Regrouped(m, own, groups, k, g[i := b], Moved(m, g[i], b), own[b := k] - {g[i]});
  }

  lemma Replaced(g: seq<Block>, i: nat, b: Block, x: Block)
    requires Once(g) && i < |g|
    ensures x in g[i := b] <==> x == b || (x in g && x != g[i])
  {
    if x == b {
      assert g[i := b][i] == b;
    } else if x in g && x != g[i] {
      var j :| 0 <= j < |g| && g[j] == x;
      assert g[i := b][j] == x;
    }
  }

  /** The links around block i of a group. */
  lemma At2(k: nat, i: nat, m: map<Block, Links>, own: map<Block, nat>, groups: seq<seq<Block>>)
    requires Partitioned(m, own, groups) && k < |groups| && i < |groups[k]|
    ensures Once(groups[k]) && LinkedAt(m, groups[k], i) && LinkedAt(m, groups[k], i + 1)
    ensures i > 0 ==> LinkedAt(m, groups[k], i - 1)
  {
    GroupAt(m, own, groups, k, i);
    GroupAt(m, own, groups, k, i + 1);
    if i > 0 {
      GroupAt(m, own, groups, k, i - 1);
    }
  }

  /** Block b is number i of group k. */
  ghost predicate Placed(groups: seq<seq<Block>>, k: nat, i: nat, b: Block)
  {
    k < |groups| && i < |groups[k]| && groups[k][i] == b
  }

  class Memory {
    /** The blocks the allocator has given out. */
    var live: set<Block>
    /** The groups in the order of their links; a group that is gone is empty. */
    ghost var groups: seq<seq<Block>>
    ghost var own: map<Block, nat>

    ghost function Snap(): map<Block, Links>
      reads this`live, live
    {
      map b | b in live :: Links(b.prev, b.next, b.sig)
    }

    ghost predicate Valid()
      reads this, live
    {
      Partitioned(Snap(), own, groups)
    }

    constructor ()
      ensures Valid() && live == {} && groups == []
    {
      live, groups, own := {}, [], map[];
    }

    /** The group and the place of a live block. */
    lemma Find(b: Block) returns (k: nat, i: nat)
      requires Valid() && b in live
      ensures Placed(groups, k, i, b)
    {
      assert b in Snap();
      k := own[b];
      i :| 0 <= i < |groups[k]| && groups[k][i] == b;
    }

    lemma At(k: nat, i: nat)
      requires Valid() && k < |groups|
      ensures LinkedAt(Snap(), groups[k], i) && Once(groups[k])
      ensures i < |groups[k]| ==> groups[k][i] in live
    {
      GroupAt(Snap(), own, groups, k, i);
    }

    lemma NextOf(base: Block, k: nat, i: nat)
      requires Valid() && Placed(groups, k, i, base)
      ensures k < |groups| && i < |groups[k]| && groups[k][i] == base && base in live
      ensures base.next != null ==> base.next in live && base.next != base
    {
      hide Partitioned;
      At2(k, i, Snap(), own, groups);
    }

    /** free. */
    method Free(b: Block)
      requires b in live
      modifies `live
      ensures live == old(live) - {b}
    {
      live := live - {b};
    }

    /** malloc of a block, whose contents are anything. */
    method Malloc() returns (b: Block)
      modifies `live
      ensures fresh(b) && live == old(live) + {b}
    {
      b := new Block();
      live := live + {b};
    }

    /** emalloc_new and ecalloc_new. */
    method EmallocNew() returns (b: Block)
      requires Valid()
      modifies `live, `groups, `own
      ensures Valid() && fresh(b) && live == old(live) + {b} && groups == old(groups) + [[b]]
    {
      hide Partitioned;
      b := Malloc();
      b.next, b.prev, b.sig := null, null, SIG;
      NewGroup(old(Snap()), own, groups, b);
      assert Snap() == old(Snap())[b := Links(null, null, SIG)];
      own, groups := own[b := |groups|], groups + [[b]];
    }

    /** emalloc and ecalloc: the new block comes after base, in its group and with its data. */
    method Emalloc(base: Block) returns (b: Block, ghost k: nat, ghost i: nat)
      requires Valid() && base in live
      modifies `live, `groups, `own, live`prev, live`next
      ensures Valid() && fresh(b) && live == old(live) + {b} && b.data == base.data
      ensures Placed(old(groups), k, i, base)
      ensures groups == old(groups)[k := old(groups)[k][..i + 1] + [b] + old(groups)[k][i + 1..]]
    {
      hide Partitioned;
      hide Linked;
      hide Placed;
      k, i := Find(base);
      NextOf(base, k, i);
      b := Malloc();
      Inserted(old(Snap()), own, groups, k, i, b);
      assert old(Snap()) == Snap() - {b};
      LinkAfter(base, b, old(Snap()));
      b.data := base.data;
      own, groups := own[b := k], groups[k := groups[k][..i + 1] + [b] + groups[k][i + 1..]];
      assert Snap() == Linked(old(Snap()), base, b);
      assert Partitioned(Linked(old(Snap()), base, b), own, groups);
    }

    /** Links a new block after base. */
    method LinkAfter(base: Block, b: Block, ghost m: map<Block, Links>)
      requires base in live && b in live && b != base && base.next != b && base.next != base
      requires (base.next != null ==> base.next in live) && m == Snap() - {b}
      modifies live`prev, live`next, b`sig
      ensures base in m && Snap() == Linked(m, base, b)
    {
      b.next := base.next;
      base.next := b;
      b.prev := base;
      if b.next != null {
        b.next.prev := b;
      }
      b.sig := SIG;
    }

    /** erealloc: the block may move, and its neighbours then follow it. */
    method Erealloc(base: Block, moves: bool) returns (b: Block, ghost k: nat, ghost i: nat)
      requires Valid() && base in live
      modifies `live, `groups, `own, live`prev, live`next
      ensures Valid() && b.data == base.data && (if moves then fresh(b) else b == base)
      ensures Placed(old(groups), k, i, base)
      ensures live == old(live) - {base} + {b} && groups == old(groups)[k := old(groups)[k][i := b]]
    {
      hide Partitioned;
      k, i := Find(base);
      if moves {
        b := Move(base, k, i);
        return;
      }
      b := base;
      At2(k, i, Snap(), own, groups);
      if b.next != null {
        b.next.prev := b;
      }
      if b.prev != null {
        b.prev.next := b;
      }
      assert Snap() == old(Snap());
      assert groups[k][i := b] == groups[k] && groups[k := groups[k][i := b]] == groups;
    }

    /** erealloc, when the block moves. */
    method Move(base: Block, ghost k: nat, ghost i: nat) returns (b: Block)
      requires Valid() && base in live && k < |groups| && i < |groups[k]| && groups[k][i] == base
      modifies `live, `groups, `own, live`prev, live`next
      ensures Valid() && b.data == base.data && fresh(b)
      ensures live == old(live) - {base} + {b} && groups == old(groups)[k := old(groups)[k][i := b]]
    {
      hide Partitioned;
      At2(k, i, Snap(), own, groups);
      b := Realloc(base);
      MovedAll(old(Snap()), own, groups, k, i, b);
      if b.next != null {
        b.next.prev := b;
      }
      if b.prev != null {
        b.prev.next := b;
      }
      own, groups := own[b := k] - {base}, groups[k := groups[k][i := b]];
      assert Snap() == Moved(old(Snap()), base, b);
      assert Partitioned(Moved(old(Snap()), base, b), own, groups);
    }

    /** realloc, when it moves the block. */
    method Realloc(base: Block) returns (b: Block)
      requires base in live
      modifies `live
      ensures fresh(b) && live == old(live) - {base} + {b}
      ensures b.prev == base.prev && b.next == base.next && b.data == base.data && b.sig == base.sig
    {
      b := Malloc();
      b.prev, b.next, b.data, b.sig := base.prev, base.next, base.data, base.sig;
      Free(base);
    }

    /** efree. */
    method Efree(c: Block) returns (ghost k: nat, ghost i: nat)
      requires Valid() && c in live
      modifies `live, `groups, `own, live`prev, live`next
      ensures Valid() && live == old(live) - {c} && Placed(old(groups), k, i, c)
      ensures groups == old(groups)[k := old(groups)[k][..i] + old(groups)[k][i + 1..]]
    {
      hide Partitioned;
      k, i := Find(c);
      At(k, i);
      At(k, i + 1);
      if i > 0 {
        At(k, i - 1);
      }
      Removed(old(Snap()), own, groups, k, i);
      ghost var g := groups[k];
      if c.next != null {
        c.next.prev := c.prev;
      }
      if c.prev != null {
        c.prev.next := c.next;
      }
      Free(c);
      assert Snap() == Unlinked(old(Snap()), c);
      own, groups := own - {c}, groups[k := g[..i] + g[i + 1..]];
    }

    /** The blocks of a group have the links of m. */
    ghost predicate As(m: map<Block, Links>, g: seq<Block>)
      reads g
    {
      && Group(m, g) && Once(g)
      && forall l | 0 <= l < |g| :: g[l] in m && m[g[l]] == Links(g[l].prev, g[l].next, g[l].sig)
    }

    /** efree_all: from any member, every block of its group once, and no other. */
    method EfreeAll(cur: Block) returns (ghost k: nat, ghost i: nat)
      requires Valid() && cur in live
      modifies `live, `groups, `own
      ensures Placed(old(groups), k, i, cur)
      ensures Valid() && groups == old(groups)[k := []]
      ensures forall b :: b in live <==> b in old(live) && b !in old(groups)[k]
    {
      hide Partitioned;
      hide Group;
      k, i := Find(cur);
      ghost var g, m := groups[k], Snap();
      GroupAs(k);
      FreeGroup(cur, m, g, i);
      GroupGone(m, own, groups, k, Snap());
      own, groups := (map b | b in own && own[b] != k :: own[b]), groups[k := []];
    }

    method FreeGroup(cur: Block, ghost m: map<Block, Links>, ghost g: seq<Block>, ghost i: nat)
      requires As(m, g) && i < |g| && g[i] == cur && forall b | b in g :: b in live
      modifies `live
      ensures forall b :: b in live <==> b in old(live) && b !in g
    {
      hide Group;
      assert forall b :: b in g <==> b in g[..i] || b == cur || b in g[i + 1..] by {
        assert g == g[..i] + [cur] + g[i + 1..];
      }
      FreeForward(cur, m, g, i);
      FreeBackward(cur, m, g, i);
      Free(cur);
    }

    lemma GroupAs(k: nat)
      requires Valid() && k < |groups|
      ensures As(Snap(), groups[k]) && forall b | b in groups[k] :: b in live
    {
      forall l | 0 <= l < |groups[k]| ensures groups[k][l] in live {
        GroupAt(Snap(), own, groups, k, l);
      }
      GroupAt(Snap(), own, groups, k, 0);
    }

    /** The blocks after cur. */
    method FreeForward(cur: Block, ghost m: map<Block, Links>, ghost g: seq<Block>, ghost i: nat)
      requires As(m, g) && i < |g| && g[i] == cur && forall b | b in g :: b in live
      modifies `live
      ensures forall b :: b in live <==> b in old(live) && b !in g[i + 1..]
    {
      assert LinkedAt(m, g, i);
      var n := cur.next;
      ghost var j := i + 1;
      while n != null
        invariant i < j <= |g| && n == Nth(g, j)
        invariant forall b :: b in live <==> b in old(live) && b !in g[i + 1..j]
        decreases |g| - j
      {
        assert LinkedAt(m, g, j) && n in g;
        assert n.sig == SIG && n in live;
        var next := n.next;
        Free(n);
        assert g[i + 1..j + 1] == g[i + 1..j] + [n];
        n, j := next, j + 1;
      }
    }

    /** The blocks before cur. */
    method FreeBackward(cur: Block, ghost m: map<Block, Links>, ghost g: seq<Block>, ghost i: nat)
      requires As(m, g) && i < |g| && g[i] == cur && forall b | b in g[..i] :: b in live
      modifies `live
      ensures forall b :: b in live <==> b in old(live) && b !in g[..i]
    {
      assert LinkedAt(m, g, i);
      var n := cur.prev;
      ghost var j := i;
      while n != null
        invariant 0 <= j <= i && n == Nth(g, j - 1)
        invariant forall b :: b in live <==> b in old(live) && b !in g[j..i]
        decreases j
      {
        assert LinkedAt(m, g, j - 1) && n in g[..i];
        assert n.sig == SIG && n in live;
        var next := n.prev;
        Free(n);
        assert g[j - 1..i] == [n] + g[j..i];
        n, j := next, j - 1;
      }
    }
  }

  lemma GroupGone(m: map<Block, Links>, own: map<Block, nat>, groups: seq<seq<Block>>, k: nat, m': map<Block, Links>)
    requires Partitioned(m, own, groups) && k < |groups|
    requires forall b :: b in m' <==> b in m && b !in groups[k]
    requires forall b | b in m' :: m'[b] == m[b]
    ensures Partitioned(m', map b | b in own && own[b] != k :: own[b], groups[k := []])
  {
    var own' := map b | b in own && own[b] != k :: own[b];
    GroupAt(m, own, groups, k, 0);
    forall b | b in own ensures b in groups[k] <==> own[b] == k {
    }
    assert own'.Keys == m'.Keys;
    Regrouped(m, own, groups, k, [], m', own');
  }
}
