/** The random number generator and its range reduction (deps/libevent/arc4random.c). */
module Arc4 {
  const SIZE := 256
  const TWO32 := 0x1_0000_0000

  /** A state: two indices and a table. */
  datatype State = State(i: nat, j: nat, s: seq<nat>)

  /** The table is a permutation of the bytes. */
  predicate Permutation(s: seq<nat>)
  {
    && |s| == SIZE && (forall k | 0 <= k < SIZE :: s[k] < SIZE)
    && (forall k, l | 0 <= k < l < SIZE :: s[k] != s[l])
  }

  predicate StateOk(st: State)
  {
    st.i < SIZE && st.j < SIZE && Permutation(st.s)
  }

  function Swapped(s: seq<nat>, a: nat, b: nat): (r: seq<nat>)
    requires a < |s| && b < |s|
    ensures |r| == |s|
  {
    s[a := s[b]][b := s[a]]
  }

  lemma SwapTwice(s: seq<nat>, a: nat, b: nat)
    requires a < |s| && b < |s|
    ensures Swapped(Swapped(s, a, b), a, b) == s
  {
  }

  lemma SwapKeeps(s: seq<nat>, a: nat, b: nat)
    requires Permutation(s) && a < SIZE && b < SIZE
    ensures Permutation(Swapped(s, a, b)) && Swapped(Swapped(s, a, b), a, b) == s
  {
    SwapTwice(s, a, b);
    var r := Swapped(s, a, b);
    forall k, l | 0 <= k < l < SIZE ensures r[k] != r[l] {
      SwappedAt(s, a, b, k);
      SwappedAt(s, a, b, l);
    }
  }

  lemma SwappedAt(s: seq<nat>, a: nat, b: nat, k: nat)
    requires a < |s| && b < |s| && k < |s|
    ensures Swapped(s, a, b)[k] == s[if k == b then a else if k == a then b else k]
  {
  }

  /** The state after one step of the key schedule (with a byte of key) or of the output
      (with 0). */
  function Stepped(st: State, key: nat): State
    requires StateOk(st)
  {
    var i := (st.i + 1) % SIZE;
    var j := (st.j + st.s[i] + key) % SIZE;
    State(i, j, Swapped(st.s, i, j))
  }

  /** The byte that a state has just given. */
  function Output(st: State): (r: nat)
    requires StateOk(st)
    ensures r < SIZE
  {
    st.s[(st.s[st.i] + st.s[st.j]) % SIZE]
  }

  /** The state after n bytes of output. */
  function After(st: State, n: nat): (r: State)
    requires StateOk(st)
    ensures StateOk(r)
  {
    if n == 0 then st else StepOk(After(st, n - 1), 0); Stepped(After(st, n - 1), 0)
  }

  /** The state before. */
  function Unstepped(st: State, key: nat): State
    requires StateOk(st) && key < SIZE
  {
    var s := Swapped(st.s, st.i, st.j);
    State((st.i + SIZE - 1) % SIZE, (st.j + SIZE + SIZE - s[st.i] - key) % SIZE, s)
  }

  /** No step loses anything of the state. */
  lemma StepBack(st: State, key: nat)
    requires StateOk(st) && key < SIZE
    ensures StateOk(Stepped(st, key)) && Unstepped(Stepped(st, key), key) == st
  {
    hide Permutation;
    hide Swapped;
    var i := (st.i + 1) % SIZE;
    TableEntry(st.s, i);
    SwapKeeps(st.s, i, (st.j + st.s[i] + key) % SIZE);
  }

  lemma TableEntry(s: seq<nat>, k: nat)
    requires Permutation(s) && k < SIZE
    ensures |s| == SIZE && s[k] < SIZE
  {
  }

  lemma StepOk(st: State, key: nat)
    requires StateOk(st)
    ensures StateOk(Stepped(st, key))
  {
    var i := (st.i + 1) % SIZE;
    SwapKeeps(st.s, i, (st.j + st.s[i] + key) % SIZE);
  }

  /** The two entries that the byte is computed from change places, and no other entry does. */
  lemma OutputIs(st: State, k: nat)
    requires StateOk(st) && k < SIZE
    ensures var i := (st.i + 1) % SIZE; var j := (st.j + st.s[i]) % SIZE; var next := Stepped(st, 0);
      && StateOk(next) && next.i == i && next.j == j && Output(next) == next.s[(st.s[i] + st.s[j]) % SIZE]
      && next.s[k] == if k == i then st.s[j] else if k == j then st.s[i] else st.s[k]
  {
    StepOk(st, 0);
    var i := (st.i + 1) % SIZE;
    SwappedAt(st.s, i, (st.j + st.s[i]) % SIZE, k);
  }

  /** The bytes of a seed are taken round and round. */
  function KeyByte(dat: seq<nat>, m: nat): nat
    requires dat != []
  {
    dat[m % |dat|]
  }

  lemma KeyByteIn(dat: seq<nat>, m: nat)
    requires dat != []
    ensures KeyByte(dat, m) in dat && (m < |dat| ==> KeyByte(dat, m) == dat[m])
  {
  }

  lemma KeyByteAgain(dat: seq<nat>, m: nat, n: nat, q: nat)
    requires dat != [] && m < |dat| && n == q * |dat| + m
    ensures KeyByte(dat, n) == dat[m]
  {
    Unique(n, |dat|, q, m);
  }

  /** The first n steps of the key schedule. */
  function Steps(st: State, dat: seq<nat>, n: nat): (r: State)
    requires StateOk(st) && dat != []
    ensures StateOk(r)
  {
    if n == 0 then st
    else
      StepOk(Steps(st, dat, n - 1), KeyByte(dat, n - 1));
      Stepped(Steps(st, dat, n - 1), KeyByte(dat, n - 1))
  }

  /** The state after arc4_addrandom. */
  function Stirred(st: State, dat: seq<nat>): (r: State)
    requires StateOk(st) && dat != []
    ensures StateOk(r)
  {
    var end := Steps(st.(i := (st.i + SIZE - 1) % SIZE), dat, SIZE);
    end.(j := end.i)
  }

  /** Different bytes of the seed, and different states, lead to different states. */
  lemma SteppedInjective(st: State, key: nat, st': State, key': nat)
    requires StateOk(st) && key < SIZE && StateOk(st') && key' < SIZE && Stepped(st, key) == Stepped(st', key')
    ensures key == key' <==> st == st'
  {
    hide Permutation;
    hide Swapped;
    StepBack(st, key);
    StepBack(st', key');
  }

  /** Seeds that differ in a single byte of those taken lead to different states. */
  lemma {:induction false} SeedMatters(st: State, x: seq<nat>, y: seq<nat>, k: nat, n: nat)
    requires StateOk(st) && x != [] && y != [] && k < n
    requires (forall d | d in x :: d < SIZE) && forall d | d in y :: d < SIZE
    requires KeyByte(x, k) != KeyByte(y, k) && forall m: nat | m < n && m != k :: KeyByte(x, m) == KeyByte(y, m)
    ensures Steps(st, x, n) != Steps(st, y, n)
  {
    hide Stepped;
    hide StateOk;
    hide KeyByte;
    KeyByteIn(x, n - 1);
    KeyByteIn(y, n - 1);
    if k == n - 1 {
      SameSteps(st, x, y, k);
    } else {
      SeedMatters(st, x, y, k, n - 1);
    }
    if Steps(st, x, n) == Steps(st, y, n) {
      SteppedInjective(Steps(st, x, n - 1), KeyByte(x, n - 1), Steps(st, y, n - 1), KeyByte(y, n - 1));
    }
  }

  lemma {:induction false} SameSteps(st: State, x: seq<nat>, y: seq<nat>, n: nat)
    requires StateOk(st) && x != [] && y != [] && forall m: nat | m < n :: KeyByte(x, m) == KeyByte(y, m)
    ensures Steps(st, x, n) == Steps(st, y, n)
  {
    hide Stepped;
    hide StateOk;
    hide KeyByte;
    if n > 0 {
      SameSteps(st, x, y, n - 1);
    }
  }

  /** The schedule goes once through the table. */
  lemma StirredIs(st: State, dat: seq<nat>)
    requires StateOk(st) && dat != []
    ensures var r := Stirred(st, dat);
      r.i == r.j == (st.i + SIZE - 1) % SIZE && r.s == Steps(st.(i := r.i), dat, SIZE).s
  {
    hide Permutation;
    StepsIndex(st.(i := (st.i + SIZE - 1) % SIZE), dat, SIZE);
  }

  lemma {:induction false} StepsIndex(st: State, dat: seq<nat>, n: nat)
    requires StateOk(st) && dat != []
    ensures Steps(st, dat, n).i == (st.i + n) % SIZE
  {
    hide Permutation;
    hide KeyByte;
    hide Swapped;
    hide Stepped;
    if n > 0 {
      StepsIndex(st, dat, n - 1);
      NextIndex(Steps(st, dat, n - 1), KeyByte(dat, n - 1), st.i + n - 1);
    }
  }

  lemma NextIndex(st: State, key: nat, i: nat)
    requires StateOk(st) && st.i == i % SIZE
    ensures Stepped(st, key).i == (i + 1) % SIZE
  {
  }

  lemma FourSteps(st: State)
    requires StateOk(st)
    ensures var t := Stepped(st, 0);
      StateOk(t) && After(st, 1) == t && var u := Stepped(t, 0);
      StateOk(u) && After(st, 2) == u && var v := Stepped(u, 0);
      StateOk(v) && After(st, 3) == v && After(st, 4) == Stepped(v, 0)
  {
    hide Stepped;
    hide Permutation;
    assert After(st, 1) == Stepped(After(st, 0), 0);
    assert After(st, 2) == Stepped(After(st, 1), 0);
    assert After(st, 3) == Stepped(After(st, 2), 0);
    assert After(st, 4) == Stepped(After(st, 3), 0);
  }

  /** The number with some bytes, the first the highest. */
  function Joined(bytes: seq<nat>): (r: nat)
  {
    if bytes == [] then 0 else Joined(bytes[..|bytes| - 1]) * 256 + bytes[|bytes| - 1]
  }

  lemma FourJoined(a: nat, b: nat, c: nat, d: nat)
    ensures Joined([a, b, c, d]) == a * 0x100_0000 + b * 0x1_0000 + c * 0x100 + d
  {
    hide Joined;
    JoinedMore([], a);
    JoinedMore([a], b);
    JoinedMore([a, b], c);
    JoinedMore([a, b, c], d);
    assert [] + [a] == [a] && [a] + [b] == [a, b] && [a, b] + [c] == [a, b, c] && [a, b, c] + [d] == [a, b, c, d];
  }

  lemma JoinedMore(bytes: seq<nat>, b: nat)
    ensures Joined(bytes + [b]) == Joined(bytes) * 256 + b && Joined([]) == 0
  {
    assert (bytes + [b])[..|bytes|] == bytes;
  }

  class Stream {
    var i: nat
    var j: nat
    const s: array<nat>

    ghost function View(): State
      reads this, s
    {
      State(i, j, s[..])
    }

    ghost predicate Valid()
      reads this, s
    {
      s.Length == SIZE && StateOk(View())
    }

    /** arc4_init. */
    constructor ()
      ensures Valid() && i == j == 0 && fresh(s) && forall k | 0 <= k < SIZE :: s[k] == k
    {
      i, j := 0, 0;
      s := new nat[SIZE](k => k);
    }

    /** One swap. */
    method Step(key: nat) returns (si: nat, sj: nat)
      requires Valid()
      modifies this, s
      ensures Valid() && View() == Stepped(old(View()), key)
      ensures si == s[j] && sj == s[i]
    {
      StepOk(View(), key);
      i := (i + 1) % SIZE;
      si := s[i];
      j := (j + si + key) % SIZE;
      sj := s[j];
      s[i] := s[j];
      s[j] := si;
      assert s[..] == Swapped(old(s[..]), i, j);
    }

    /** arc4_getbyte. */
    method GetByte() returns (r: nat)
      requires Valid()
      modifies this, s
      ensures Valid() && View() == Stepped(old(View()), 0) && r == Output(View())
    {
      var si, sj := Step(0);
      r := s[(si + sj) % SIZE];
    }

    /** arc4_getword. */
    method GetWord() returns (r: nat)
      requires Valid()
      modifies this, s
      ensures Valid() && View() == After(old(View()), 4) && r < TWO32
      ensures var st := old(View());
        r == Joined([Output(After(st, 1)), Output(After(st, 2)), Output(After(st, 3)), Output(After(st, 4))])
    {
      hide Stepped;
      hide Output;
      hide Permutation;
      ghost var st := View();
      FourSteps(st);
      var a := GetByte();
      var b := GetByte();
      var c := GetByte();
      var d := GetByte();
      r := a * 0x100_0000 + b * 0x1_0000 + c * 0x100 + d;
      FourJoined(a, b, c, d);
    }

    /** arc4_addrandom. */
    method AddRandom(dat: seq<nat>)
      requires Valid() && dat != [] && forall d | d in dat :: d < SIZE
      modifies this, s
      ensures Valid() && View() == Stirred(old(View()), dat)
    {
      hide Stepped;
      hide Permutation;
      i := (i + SIZE - 1) % SIZE;
      ghost var start := View();
      var n := 0;
      while n < SIZE
        invariant 0 <= n <= SIZE && Valid() && StateOk(start)
        invariant View() == Steps(start, dat, n)
      {
        var si, sj := Step(KeyByte(dat, n));
        n := n + 1;
      }
      j := i;
    }
  }

  // Numbers below a bound.

  /** A value in 32 bits. */
  function Word(x: int): nat
  {
    x % TWO32
  }

  /** The smallest accepted draw, in 32-bit arithmetic. */
  function Least(bound: nat): nat
    requires 2 <= bound < TWO32
  {
    if bound > 0x8000_0000 then Word(1 + (TWO32 - 1 - bound))
    else Word(0xffff_ffff - Word(bound * 2) + 1) % bound
  }

  /** It is the remainder of 2^32, which needs 33 bits. */
  lemma LeastIs(bound: nat)
    requires 2 <= bound < TWO32
    ensures Least(bound) == TWO32 % bound
  {
    hide Word;
    WordIs(bound * 2);
    if bound > 0x8000_0000 {
      WordIs(1 + (TWO32 - 1 - bound));
      RemainderOnce(TWO32, bound);
    } else if bound == 0x8000_0000 {
      WordIs(TWO32);
      Unique(TWO32, bound, 2, 0);
      Unique(0, bound, 0, 0);
    } else {
      WordIs(0xffff_ffff - bound * 2 + 1);
      TwiceLess(TWO32, bound);
    }
  }

  lemma WordIs(x: int)
    ensures 0 <= x < TWO32 ==> Word(x) == x
    ensures Word(TWO32) == 0
  {
  }

  lemma RemainderOnce(x: nat, n: nat)
    requires n <= x < 2 * n
    ensures x % n == x - n
  {
    Unique(x, n, 1, x - n);
  }

  lemma TwiceLess(x: nat, n: nat)
    requires 0 < n && 2 * n <= x
    ensures (x - 2 * n) % n == x % n
  {
    Shift(x - 2 * n, n);
    Shift(x - n, n);
  }

  lemma Shift(x: nat, n: nat)
    requires 0 < n
    ensures (x + n) % n == x % n && (x + n) / n == x / n + 1
  {
    var q, r := x / n, x % n;
    assert x + n == (q + 1) * n + r;
    Unique(x + n, n, q + 1, r);
  }

  lemma Unique(x: nat, n: nat, q: nat, r: nat)
    requires 0 < n && r < n && x == q * n + r
    ensures x / n == q && x % n == r
  {
    var q', r' := x / n, x % n;
    DivMod(x, n);
    if q > q' {
      MulStep(q', q, n);
    } else if q < q' {
      MulStep(q, q', n);
    }
  }

  lemma DivMod(x: nat, n: nat)
    requires 0 < n
    ensures x == x / n * n + x % n && x % n < n
  {
  }

  lemma MulStep(a: nat, b: nat, n: nat)
    requires a < b
    ensures a * n + n <= b * n
  {
    assert (b - a - 1) * n >= 0;
    assert b * n == a * n + n + (b - a - 1) * n;
  }

  /** How many numbers below n leave the remainder v. */
  function Count(n: nat, bound: nat, v: nat): nat
    requires bound > 0
  {
    if n == 0 then 0 else Count(n - 1, bound, v) + if (n - 1) % bound == v then 1 else 0
  }

  lemma {:induction false} CountIs(n: nat, bound: nat, v: nat)
    requires bound > 0 && v < bound
    ensures Count(n, bound, v) == n / bound + if n % bound > v then 1 else 0
    decreases n
  {
    if n > 0 {
      CountIs(n - 1, bound, v);
      NextQuotient(n - 1, bound);
    } else {
      Unique(0, bound, 0, 0);
    }
  }

  lemma NextQuotient(x: nat, n: nat)
    requires 0 < n
    ensures if x % n == n - 1 then (x + 1) / n == x / n + 1 && (x + 1) % n == 0
      else (x + 1) / n == x / n && (x + 1) % n == x % n + 1
  {
    var q, r := x / n, x % n;
    if r == n - 1 {
      assert x + 1 == (q + 1) * n + 0;
      Unique(x + 1, n, q + 1, 0);
    } else {
      assert x + 1 == q * n + (r + 1);
      Unique(x + 1, n, q, r + 1);
    }
  }

  /** Every result comes from equally many of the draws that are accepted. */
  lemma Uniform(bound: nat, v: nat)
    requires 2 <= bound < TWO32 && v < bound
    ensures Count(TWO32, bound, v) - Count(Least(bound), bound, v) == TWO32 / bound
  {
    LeastIs(bound);
    var min := TWO32 % bound;
    CountIs(TWO32, bound, v);
    CountIs(min, bound, v);
    Unique(min, bound, 0, min);
  }

  datatype Draw = Undecided | Got(value: nat, used: nat)

  /** arc4random_uniform, on the words that the generator gives one after another. */
  method RandomUniform(bound: nat, draws: seq<nat>) returns (r: Draw)
    requires bound < TWO32 && forall d | d in draws :: d < TWO32
    ensures bound < 2 ==> r == Got(0, 0)
    ensures bound >= 2 && r.Got? ==> 0 < r.used <= |draws| && r.value == draws[r.used - 1] % bound < bound
    ensures bound >= 2 && r.Got? ==>
      draws[r.used - 1] >= TWO32 % bound && forall k | 0 <= k < r.used - 1 :: draws[k] < TWO32 % bound
    ensures bound >= 2 && r.Undecided? ==> forall k | 0 <= k < |draws| :: draws[k] < TWO32 % bound
  {
    if bound < 2 {
      return Got(0, 0);
    }
    LeastIs(bound);
    var min := Least(bound);
    var n := 0;
    while n < |draws|
      invariant 0 <= n <= |draws| && forall k | 0 <= k < n :: draws[k] < min
    {
      var d := draws[n];
      n := n + 1;
      if d >= min {
        return Got(d % bound, n);
      }
    }
    r := Undecided;
  }
}
