/** Lists of events that wait for the same duration, in the order of their deadlines
    (deps/libevent/event.c). */
module TimeoutLists {
  datatype Entry = Entry(ev: nat, due: int)

  ghost predicate Sorted(s: seq<Entry>)
  {
    forall i, j | 0 <= i < j < |s| :: s[i].due <= s[j].due
  }

  /** An event is in a list at most once. */
  ghost predicate Once(s: seq<Entry>)
  {
    forall i, j | 0 <= i < j < |s| :: s[i].ev != s[j].ev
  }

  /** insert_common_timeout_inorder: from the end, before the later deadlines and after
      the equal ones. */
  method InsertInOrder(s: seq<Entry>, x: Entry) returns (r: seq<Entry>, k: nat)
    requires Sorted(s)
    ensures k <= |s| && r == s[..k] + [x] + s[k..]
    ensures (forall i | 0 <= i < k :: s[i].due <= x.due) && (forall i | k <= i < |s| :: x.due < s[i].due)
  {
    k := |s|;
    while k > 0 && x.due < s[k - 1].due
      invariant 0 <= k <= |s| && forall i | k <= i < |s| :: x.due < s[i].due
    {
      k := k - 1;
    }
    r := s[..k] + [x] + s[k..];
  }

  lemma InsertedIn(s: seq<Entry>, x: Entry, k: nat, y: Entry)
    requires k <= |s|
    ensures y in s[..k] + [x] + s[k..] <==> y in s || y == x
  {
    assert s == s[..k] + s[k..];
    assert y in s[..k] + [x] + s[k..] <==> y in s[..k] || y == x || y in s[k..];
  }

  lemma InsertedAt(s: seq<Entry>, x: Entry, k: nat, i: nat)
    requires k <= |s| && i <= |s|
    ensures (s[..k] + [x] + s[k..])[i] == if i < k then s[i] else if i == k then x else s[i - 1]
  {
  }

  lemma InsertedSorted(s: seq<Entry>, x: Entry, k: nat)
    requires k <= |s| && Sorted(s) && Once(s) && forall y | y in s :: y.ev != x.ev
    requires (forall i | 0 <= i < k :: s[i].due <= x.due) && (forall i | k <= i < |s| :: x.due < s[i].due)
    ensures Sorted(s[..k] + [x] + s[k..]) && Once(s[..k] + [x] + s[k..])
  {
    var r := s[..k] + [x] + s[k..];
    forall i, j | 0 <= i < j < |r| ensures r[i].due <= r[j].due && r[i].ev != r[j].ev {
      InsertedAt(s, x, k, i);
      InsertedAt(s, x, k, j);
    }
  }

  /** TAILQ_REMOVE. */
  function Without(s: seq<Entry>, e: nat): (r: seq<Entry>)
    ensures |r| <= |s|
  {
    if s == [] then [] else if s[0].ev == e then s[1..] else [s[0]] + Without(s[1..], e)
  }

  /** The event is taken out where it stands, and the others keep their order. */
  lemma {:induction false} WithoutAt(a: seq<Entry>, x: Entry, b: seq<Entry>)
    requires forall y | y in a :: y.ev != x.ev
    ensures Without(a + [x] + b, x.ev) == a + b
  {
    var s := a + [x] + b;
    if a == [] {
      assert s[1..] == b && a + b == b;
    } else {
      WithoutAt(a[1..], x, b);
      assert s[1..] == a[1..] + [x] + b && [a[0]] + (a[1..] + b) == a + b;
    }
  }

  lemma {:induction false} Removed(s: seq<Entry>, e: nat)
    requires Sorted(s) && Once(s)
    ensures var r := Without(s, e);
      && Sorted(r) && Once(r) && (forall y :: y in r <==> y in s && y.ev != e)
      && (r != [] ==> s[0].due <= r[0].due)
  {
    if s != [] {
      var rest := s[1..];
      assert forall y :: y in s <==> y == s[0] || y in rest by {
        assert s == [s[0]] + rest;
      }
      if s[0].ev != e {
        Removed(rest, e);
        var r := Without(s, e);
        forall y ensures y in r <==> y in s && y.ev != e {
          assert r == [s[0]] + Without(rest, e);
        }
        forall j | 1 <= j < |r| ensures s[0].due <= r[j].due && s[0].ev != r[j].ev {
          assert r[j] == Without(rest, e)[j - 1];
          assert r[j] in Without(rest, e);
        }
      }
    }
  }
}
