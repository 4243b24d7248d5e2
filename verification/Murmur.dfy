/** MurmurHash64A (hash.h), on a machine that stores the low byte of a word first. */
module Murmur {
  const INT_MAX := 0x7fff_ffff

  /** x * m, in 64 bits. */
  function Times(x: bv64): bv64
  {
    x * 0xc6a4a7935bd1e995
  }

  /** x times the inverse of m. */
  function Untimes(x: bv64): bv64
  {
    x * 0x5f7a0ea7e59b19bd
  }

  lemma TimesIs(x: bv64)
    ensures Times(x) == x * 0xc6a4a7935bd1e995
  {
  }

  lemma InverseOfM(x: bv64)
    ensures Untimes(x * 0xc6a4a7935bd1e995) == x
  {
  }

  lemma TimesBack(x: bv64)
    ensures Untimes(Times(x)) == x
  {
    hide Times;
    hide Untimes;
    TimesIs(x);
    InverseOfM(x);
  }

  /** x ^= x >> r. */
  function Fold(x: bv64): bv64
  {
    Xor(x, High(x))
  }

  function High(x: bv64): bv64
  {
    x >> 47
  }

  function Xor(x: bv64, y: bv64): bv64
  {
    x ^ y
  }

  lemma HighOfFold(x: bv64)
    ensures High(Fold(x)) == High(x)
  {
  }

  lemma XorTwice(x: bv64, y: bv64)
    ensures x ^ y ^ y == x
  {
  }

  lemma FoldBack(x: bv64)
    ensures Fold(Fold(x)) == x
  {
    hide High;
    hide Xor;
    HighOfFold(x);
    XorBack(x, High(x));
  }

  /** What happens to a word of the key. */
  function Mix(k: bv64): bv64
  {
    Times(Fold(Times(k)))
  }

  function Unmix(y: bv64): bv64
  {
    Untimes(Fold(Untimes(y)))
  }

  lemma MixBack(k: bv64)
    ensures Unmix(Mix(k)) == k
  {
    hide Times;
    hide Untimes;
    hide Fold;
    TimesBack(k);
    TimesBack(Fold(Times(k)));
    FoldBack(Times(k));
  }

  /** h ^= k; h *= m. */
  function Stir(h: bv64, k: bv64): bv64
  {
    Times(h ^ k)
  }

  /** Stirring in a word loses nothing of the state, nor of the word. */
  lemma StirBack(h: bv64, k: bv64)
    ensures Untimes(Stir(h, k)) ^ k == h && Untimes(Stir(h, k)) ^ h == k
  {
    hide Times;
    hide Untimes;
    TimesBack(h ^ k);
    XorTwice(h, k);
    XorTwice(k, h);
    XorSwap(h, k);
  }

  lemma XorSwap(x: bv64, y: bv64)
    ensures x ^ y == y ^ x
  {
  }

  /** One round of the loop. */
  function Round(h: bv64, k: bv64): bv64
  {
    Stir(h, Mix(k))
  }

  lemma RoundInjective(h: bv64, k: bv64, h': bv64, k': bv64)
    requires Round(h, k) == Round(h', k')
    ensures k == k' ==> h == h'
    ensures h == h' ==> k == k'
  {
    hide Mix;
    hide Unmix;
    hide Stir;
    hide Untimes;
    StirBack(h, Mix(k));
    StirBack(h', Mix(k'));
    MixBack(k);
    MixBack(k');
  }

  /** The end of the hash. */
  function Finish(h: bv64): bv64
  {
    Fold(Times(Fold(h)))
  }

  lemma FinishInjective(h: bv64, h': bv64)
    requires Finish(h) == Finish(h')
    ensures h == h'
  {
    hide Times;
    hide Untimes;
    hide Fold;
    FoldBack(h);
    FoldBack(h');
    TimesBack(Fold(h));
    TimesBack(Fold(h'));
    FoldBack(Times(Fold(h)));
    FoldBack(Times(Fold(h')));
  }

  function Wide(b: bv8): bv64
  {
    b as bv64
  }

  /** A byte moved to its place in a word. */
  function Placed(b: bv8, i: nat): bv64
    requires i < 8
  {
    var w := b as bv64;
    match i
    case 0 => w
    case 1 => w << 8
    case 2 => w << 16
    case 3 => w << 24
    case 4 => w << 32
    case 5 => w << 40
    case 6 => w << 48
    case 7 => w << 56
  }

  /** Eight bytes of the key as a word. */
  function Word(key: seq<bv8>, i: nat): bv64
    requires i + 8 <= |key|
  {
    Placed(key[i], 0) | Placed(key[i + 1], 1) | Placed(key[i + 2], 2) | Placed(key[i + 3], 3)
    | Placed(key[i + 4], 4) | Placed(key[i + 5], 5) | Placed(key[i + 6], 6) | Placed(key[i + 7], 7)
  }

  lemma BytesOfWord(a: bv8, b: bv8, c: bv8, d: bv8, e: bv8, f: bv8, g: bv8, h: bv8)
    ensures var w := (a as bv64) | ((b as bv64) << 8) | ((c as bv64) << 16) | ((d as bv64) << 24)
      | ((e as bv64) << 32) | ((f as bv64) << 40) | ((g as bv64) << 48) | ((h as bv64) << 56);
      && w & 0xff == a as bv64 && (w >> 8) & 0xff == b as bv64
      && (w >> 16) & 0xff == c as bv64 && (w >> 24) & 0xff == d as bv64
      && (w >> 32) & 0xff == e as bv64 && (w >> 40) & 0xff == f as bv64
      && (w >> 48) & 0xff == g as bv64 && (w >> 56) & 0xff == h as bv64
  {
  }

  lemma ByteWide(x: bv8, y: bv8)
    requires x as bv64 == y as bv64
    ensures x == y
  {
  }

  lemma WideInjective(x: bv8, y: bv8)
    requires Wide(x) == Wide(y)
    ensures x == y
  {
    ByteWide(x, y);
  }

  /** The word determines the bytes. */
  lemma WordInjective(s: seq<bv8>, t: seq<bv8>, i: nat)
    requires i + 8 <= |s| && i + 8 <= |t| && Word(s, i) == Word(t, i)
    ensures forall j | i <= j < i + 8 :: s[j] == t[j]
  {
    BytesOfWord(s[i], s[i + 1], s[i + 2], s[i + 3], s[i + 4], s[i + 5], s[i + 6], s[i + 7]);
    BytesOfWord(t[i], t[i + 1], t[i + 2], t[i + 3], t[i + 4], t[i + 5], t[i + 6], t[i + 7]);
    forall j | i <= j < i + 8 ensures s[j] as bv64 == t[j] as bv64 {
    }
    forall j | i <= j < i + 8 ensures s[j] == t[j] {
      ByteWide(s[j], t[j]);
    }
  }

  /** The state after the first n words. */
  function Rounds(key: seq<bv8>, n: nat, h: bv64): bv64
    requires 8 * n <= |key|
  {
    if n == 0 then h else Round(Rounds(key, n - 1, h), Word(key, 8 * (n - 1)))
  }

  /** The bytes from i on, below the eighth, exclusive-or'd into the state from the last down. */
  function Tail(key: seq<bv8>, at: nat, n: nat, h: bv64): bv64
    requires at + n <= |key| && n < 8
  {
    if n == 0 then h else Tail(key, at, n - 1, Xor(h, Placed(key[at + n - 1], n - 1)))
  }

  function Size(len: nat): bv64
    requires len <= INT_MAX
  {
    len as bv64
  }

  function WideSeed(seed: bv32): bv64
  {
    seed as bv64
  }

  function Start(len: nat, seed: bv32): bv64
    requires len <= INT_MAX
  {
    Xor(WideSeed(seed), Times(Size(len)))
  }

  /** The start depends on the seed and on the length, which has 64 bits there. */
  lemma StartInjective(len: nat, seed: bv32, len': nat, seed': bv32)
    requires len <= INT_MAX && len' <= INT_MAX && Start(len, seed) == Start(len', seed')
    ensures len == len' ==> seed == seed'
    ensures seed == seed' ==> Size(len) == Size(len')
  {
    hide Xor;
    hide Times;
    hide Size;
    hide WideSeed;
    MixedInjective(WideSeed(seed), Size(len), WideSeed(seed'), Size(len'));
    if len == len' {
      SeedInjective(seed, seed');
    }
  }

  lemma MixedInjective(w: bv64, l: bv64, w': bv64, l': bv64)
    requires Xor(w, Times(l)) == Xor(w', Times(l'))
    ensures w == w' <==> l == l'
  {
    hide Xor;
    hide Times;
    hide Untimes;
    XorBack(w, Times(l));
    XorBack(w', Times(l'));
    TimesBack(l);
    TimesBack(l');
  }

  lemma SeedInjective(seed: bv32, seed': bv32)
    requires WideSeed(seed) == WideSeed(seed')
    ensures seed == seed'
  {
    SeedWide(seed, seed');
  }

  lemma SeedWide(seed: bv32, seed': bv32)
    requires seed as bv64 == seed' as bv64
    ensures seed == seed'
  {
  }

  /** MurmurHash64A. */
  function Hash(key: seq<bv8>, seed: bv32): bv64
    requires |key| <= INT_MAX
  {
    var n := |key| / 8;
    var h := Rounds(key, n, Start(|key|, seed));
    var t := Tail(key, 8 * n, |key| % 8, h);
    Finish(if |key| % 8 == 0 then t else Times(t))
  }

  lemma RoundIs(h: bv64, k: bv64)
    ensures Round(h, k) == Times(h ^ Times(Fold(Times(k))))
  {
    hide Times;
    hide Fold;
  }

  method HashWords(key: seq<bv8>, start: bv64) returns (h: bv64)
    ensures h == Rounds(key, |key| / 8, start)
  {
    hide Word;
    hide Times;
    hide Fold;
    hide Round;
    h := start;
    var data, end := 0, |key| / 8;
    while data != end
      invariant 0 <= data <= end == |key| / 8 && h == Rounds(key, data, start)
      decreases end - data
    {
      var k := Word(key, 8 * data);
      data := data + 1;
      RoundIs(h, k);
      k := Times(k);
      k := Fold(k);
      k := Times(k);
      h := h ^ k;
      h := Times(h);
    }
  }

  /** The fall-through switch over the bytes of the last, unfinished word. */
  method HashTail(key: seq<bv8>, at: nat, n: nat, start: bv64) returns (h: bv64)
    requires at + n <= |key| && n < 8
    ensures h == Tail(key, at, n, start)
  {
    hide Placed;
    h := start;
    var rest := n;
    while rest > 0
      invariant 0 <= rest <= n && Tail(key, at, n, start) == Tail(key, at, rest, h)
    {
      h := Xor(h, Placed(key[at + rest - 1], rest - 1));
      rest := rest - 1;
    }
  }

  method MurmurHash64A(key: seq<bv8>, seed: bv32) returns (h: bv64)
    requires |key| <= INT_MAX
    ensures h == Hash(key, seed)
  {
    hide Times;
    hide Fold;
    hide Rounds;
    hide Tail;
    var len := |key|;
    h := Start(len, seed);
    h := HashWords(key, h);
    var rest := len % 8;
    if rest != 0 {
      h := HashTail(key, 8 * (len / 8), rest, h);
      h := Times(h);
    } else {
      NoTail(key, 8 * (len / 8), h);
    }
    h := Fold(h);
    h := Times(h);
    h := Fold(h);
  }

  lemma NoTail(key: seq<bv8>, at: nat, h: bv64)
    requires at <= |key|
    ensures Tail(key, at, 0, h) == h
  {
  }

  /** Two keys have the same bytes from a on, below b. */
  predicate Same(s: seq<bv8>, t: seq<bv8>, a: nat, b: nat)
    requires b <= |s| && b <= |t|
  {
    forall j | a <= j < b :: s[j] == t[j]
  }

  lemma SameWord(s: seq<bv8>, t: seq<bv8>, at: nat)
    requires at + 8 <= |s| && at + 8 <= |t| && Same(s, t, at, at + 8)
    ensures Word(s, at) == Word(t, at)
  {
    hide Placed;
  }

  /** The same words take different states to different states. */
  lemma {:induction false} RoundsInjective(s: seq<bv8>, t: seq<bv8>, m: nat, n: nat, h: bv64)
    requires m <= n && 8 * n <= |s| && 8 * n <= |t| && Same(s, t, 8 * m, 8 * n)
    requires Rounds(s, n, h) == Rounds(t, n, h)
    ensures Rounds(s, m, h) == Rounds(t, m, h)
    decreases n
  {
    hide Round;
    if m < n {
      var at := 8 * (n - 1);
      SameWord(s, t, at);
      RoundInjective(Rounds(s, n - 1, h), Word(s, at), Rounds(t, n - 1, h), Word(t, at));
      RoundsInjective(s, t, m, n - 1, h);
    }
  }

  lemma {:induction false} SameRounds(s: seq<bv8>, t: seq<bv8>, n: nat, h: bv64)
    requires 8 * n <= |s| && 8 * n <= |t| && Same(s, t, 0, 8 * n)
    ensures Rounds(s, n, h) == Rounds(t, n, h)
  {
    hide Round;
    if n > 0 {
      SameWord(s, t, 8 * (n - 1));
      SameRounds(s, t, n - 1, h);
    }
  }

  /** The tail, apart from the state. */
  lemma {:induction false} TailSplit(key: seq<bv8>, at: nat, n: nat, h: bv64)
    requires at + n <= |key| && n < 8
    ensures Tail(key, at, n, h) == Xor(h, Tail(key, at, n, 0))
    decreases n
  {
    hide Placed;
    hide Xor;
    XorZero(h);
    if n > 0 {
      var p := Placed(key[at + n - 1], n - 1);
      TailSplit(key, at, n - 1, Xor(h, p));
      XorZero(p);
      TailSplit(key, at, n - 1, p);
      XorMoves(h, p, Tail(key, at, n - 1, 0));
    }
  }

  lemma XorZero(x: bv64)
    ensures Xor(x, 0) == x && Xor(0, x) == x
  {
  }

  lemma XorBack(x: bv64, y: bv64)
    ensures Xor(Xor(x, y), y) == x && Xor(x, Xor(x, y)) == y
  {
  }

  lemma XorMoves(x: bv64, y: bv64, z: bv64)
    ensures Xor(Xor(x, y), z) == Xor(x, Xor(y, z))
  {
  }

  /** Byte i of a word. */
  function ByteAt(w: bv64, i: nat): bv64
    requires i < 8
  {
    match i
    case 0 => w & 0xff
    case 1 => (w >> 8) & 0xff
    case 2 => (w >> 16) & 0xff
    case 3 => (w >> 24) & 0xff
    case 4 => (w >> 32) & 0xff
    case 5 => (w >> 40) & 0xff
    case 6 => (w >> 48) & 0xff
    case 7 => (w >> 56) & 0xff
  }

  lemma ByteOfXor(x: bv64, y: bv64, i: nat)
    requires i < 8
    ensures ByteAt(Xor(x, y), i) == Xor(ByteAt(x, i), ByteAt(y, i))
  {
    hide Xor;
    match i
    case 0 => Xor0(x, y);
    case 1 => Xor8(x, y);
    case 2 => Xor16(x, y);
    case 3 => Xor24(x, y);
    case 4 => Xor32(x, y);
    case 5 => Xor40(x, y);
    case 6 => Xor48(x, y);
    case 7 => Xor56(x, y);
  }

  lemma Xor0(x: bv64, y: bv64)
    ensures Xor(x, y) & 0xff == Xor(x & 0xff, y & 0xff)
  {
  }

  lemma Xor8(x: bv64, y: bv64)
    ensures (Xor(x, y) >> 8) & 0xff == Xor((x >> 8) & 0xff, (y >> 8) & 0xff)
  {
  }

  lemma Xor16(x: bv64, y: bv64)
    ensures (Xor(x, y) >> 16) & 0xff == Xor((x >> 16) & 0xff, (y >> 16) & 0xff)
  {
  }

  lemma Xor24(x: bv64, y: bv64)
    ensures (Xor(x, y) >> 24) & 0xff == Xor((x >> 24) & 0xff, (y >> 24) & 0xff)
  {
  }

  lemma Xor32(x: bv64, y: bv64)
    ensures (Xor(x, y) >> 32) & 0xff == Xor((x >> 32) & 0xff, (y >> 32) & 0xff)
  {
  }

  lemma Xor40(x: bv64, y: bv64)
    ensures (Xor(x, y) >> 40) & 0xff == Xor((x >> 40) & 0xff, (y >> 40) & 0xff)
  {
  }

  lemma Xor48(x: bv64, y: bv64)
    ensures (Xor(x, y) >> 48) & 0xff == Xor((x >> 48) & 0xff, (y >> 48) & 0xff)
  {
  }

  lemma Xor56(x: bv64, y: bv64)
    ensures (Xor(x, y) >> 56) & 0xff == Xor((x >> 56) & 0xff, (y >> 56) & 0xff)
  {
  }

  lemma ByteOfPlaced(b: bv8, k: nat, i: nat)
    requires k < 8 && i < 8
    ensures ByteAt(Placed(b, k), i) == if i == k then Wide(b) else 0
  {
    hide Placed;
    hide ByteAt;
    match k
    case 0 => Placed0(b);
    case 1 => Placed1(b);
    case 2 => Placed2(b);
    case 3 => Placed3(b);
    case 4 => Placed4(b);
    case 5 => Placed5(b);
    case 6 => Placed6(b);
    case 7 => Placed7(b);
  }

  lemma Placed0(b: bv8)
    ensures var w := Placed(b, 0);
      && ByteAt(w, 0) == Wide(b) && ByteAt(w, 1) == 0 && ByteAt(w, 2) == 0 && ByteAt(w, 3) == 0
      && ByteAt(w, 4) == 0 && ByteAt(w, 5) == 0 && ByteAt(w, 6) == 0 && ByteAt(w, 7) == 0
  {
  }

  lemma Placed1(b: bv8)
    ensures var w := Placed(b, 1);
      && ByteAt(w, 0) == 0 && ByteAt(w, 1) == Wide(b) && ByteAt(w, 2) == 0 && ByteAt(w, 3) == 0
      && ByteAt(w, 4) == 0 && ByteAt(w, 5) == 0 && ByteAt(w, 6) == 0 && ByteAt(w, 7) == 0
  {
  }

  lemma Placed2(b: bv8)
    ensures var w := Placed(b, 2);
      && ByteAt(w, 0) == 0 && ByteAt(w, 1) == 0 && ByteAt(w, 2) == Wide(b) && ByteAt(w, 3) == 0
      && ByteAt(w, 4) == 0 && ByteAt(w, 5) == 0 && ByteAt(w, 6) == 0 && ByteAt(w, 7) == 0
  {
  }

  lemma Placed3(b: bv8)
    ensures var w := Placed(b, 3);
      && ByteAt(w, 0) == 0 && ByteAt(w, 1) == 0 && ByteAt(w, 2) == 0 && ByteAt(w, 3) == Wide(b)
      && ByteAt(w, 4) == 0 && ByteAt(w, 5) == 0 && ByteAt(w, 6) == 0 && ByteAt(w, 7) == 0
  {
  }

  lemma Placed4(b: bv8)
    ensures var w := Placed(b, 4);
      && ByteAt(w, 0) == 0 && ByteAt(w, 1) == 0 && ByteAt(w, 2) == 0 && ByteAt(w, 3) == 0
      && ByteAt(w, 4) == Wide(b) && ByteAt(w, 5) == 0 && ByteAt(w, 6) == 0 && ByteAt(w, 7) == 0
  {
  }

  lemma Placed5(b: bv8)
    ensures var w := Placed(b, 5);
      && ByteAt(w, 0) == 0 && ByteAt(w, 1) == 0 && ByteAt(w, 2) == 0 && ByteAt(w, 3) == 0
      && ByteAt(w, 4) == 0 && ByteAt(w, 5) == Wide(b) && ByteAt(w, 6) == 0 && ByteAt(w, 7) == 0
  {
  }

  lemma Placed6(b: bv8)
    ensures var w := Placed(b, 6);
      && ByteAt(w, 0) == 0 && ByteAt(w, 1) == 0 && ByteAt(w, 2) == 0 && ByteAt(w, 3) == 0
      && ByteAt(w, 4) == 0 && ByteAt(w, 5) == 0 && ByteAt(w, 6) == Wide(b) && ByteAt(w, 7) == 0
  {
  }

  lemma Placed7(b: bv8)
    ensures var w := Placed(b, 7);
      && ByteAt(w, 0) == 0 && ByteAt(w, 1) == 0 && ByteAt(w, 2) == 0 && ByteAt(w, 3) == 0
      && ByteAt(w, 4) == 0 && ByteAt(w, 5) == 0 && ByteAt(w, 6) == 0 && ByteAt(w, 7) == Wide(b)
  {
  }

  lemma {:induction false} TailBytes(key: seq<bv8>, at: nat, n: nat, i: nat)
    requires at + n <= |key| && n < 8 && i < 8
    ensures ByteAt(Tail(key, at, n, 0), i) == if i < n then Wide(key[at + i]) else 0
    decreases n
  {
    hide Placed;
    hide ByteAt;
    hide Xor;
    hide Wide;
    hide Tail;
    if n > 0 {
      var p := Placed(key[at + n - 1], n - 1);
      TailStep(key, at, n);
      ByteOfXor(p, Tail(key, at, n - 1, 0), i);
      ByteOfPlaced(key[at + n - 1], n - 1, i);
      TailBytes(key, at, n - 1, i);
      XorZero(Wide(key[at + n - 1]));
      XorZero(ByteAt(Tail(key, at, n - 1, 0), i));
    } else {
      NoTail(key, at, 0);
      NoBytes(i);
    }
  }

  lemma TailStep(key: seq<bv8>, at: nat, n: nat)
    requires at + n <= |key| && 0 < n < 8
    ensures var p := Placed(key[at + n - 1], n - 1);
      Tail(key, at, n, 0) == Xor(p, Tail(key, at, n - 1, 0))
  {
    hide Placed;
    hide Xor;
    var p := Placed(key[at + n - 1], n - 1);
    XorZero(p);
    TailSplit(key, at, n - 1, p);
  }

  lemma NoBytes(i: nat)
    requires i < 8
    ensures ByteAt(0, i) == 0
  {
  }

  lemma {:induction false} SameTail(s: seq<bv8>, t: seq<bv8>, at: nat, n: nat, h: bv64)
    requires at + n <= |s| && at + n <= |t| && n < 8 && Same(s, t, at, at + n)
    ensures Tail(s, at, n, h) == Tail(t, at, n, h)
    decreases n
  {
    hide Placed;
    if n > 0 {
      SameTail(s, t, at, n - 1, Xor(h, Placed(s[at + n - 1], n - 1)));
    }
  }

  /** The tail loses nothing of the state, nor of its own bytes. */
  lemma TailInjective(s: seq<bv8>, t: seq<bv8>, at: nat, n: nat, h: bv64, h': bv64)
    requires at + n <= |s| && at + n <= |t| && n < 8 && Tail(s, at, n, h) == Tail(t, at, n, h')
    ensures Same(s, t, at, at + n) ==> h == h'
    ensures h == h' ==> Same(s, t, at, at + n)
  {
    hide Tail;
    hide Xor;
    TailSplit(s, at, n, h);
    TailSplit(t, at, n, h');
    var x, y := Tail(s, at, n, 0), Tail(t, at, n, 0);
    XorBack(h, x);
    XorBack(h', y);
    if Same(s, t, at, at + n) {
      SameTail(s, t, at, n, 0);
    }
    if h == h' {
      hide Wide;
      forall j | at <= j < at + n ensures s[j] == t[j] {
        TailBytes(s, at, n, j - at);
        TailBytes(t, at, n, j - at);
        WideInjective(s[j], t[j]);
      }
    }
  }

  /** Equal hashes of keys of one length come from equal states before the end. */
  lemma HashBack(s: seq<bv8>, t: seq<bv8>, seed: bv32, seed': bv32)
    requires |s| == |t| <= INT_MAX && Hash(s, seed) == Hash(t, seed')
    ensures var n := |s| / 8;
      var h, h' := Start(|s|, seed), Start(|s|, seed');
      Tail(s, 8 * n, |s| % 8, Rounds(s, n, h)) == Tail(t, 8 * n, |s| % 8, Rounds(t, n, h'))
  {
    hide Times;
    hide Untimes;
    hide Finish;
    hide Tail;
    hide Rounds;
    hide Start;
    var n := |s| / 8;
    var h, h' := Start(|s|, seed), Start(|s|, seed');
    var x, y := Tail(s, 8 * n, |s| % 8, Rounds(s, n, h)), Tail(t, 8 * n, |s| % 8, Rounds(t, n, h'));
    FinishInjective(if |s| % 8 == 0 then x else Times(x), if |s| % 8 == 0 then y else Times(y));
    TimesBack(x);
    TimesBack(y);
  }

  /** Two keys that differ only inside one 8-byte block have different hashes. */
  lemma NoCollisionInBlock(s: seq<bv8>, t: seq<bv8>, seed: bv32, b: nat)
    requires |s| == |t| <= INT_MAX && b < |s| / 8 && Same(s, t, 0, 8 * b) && Same(s, t, 8 * b + 8, |s|)
    requires Hash(s, seed) == Hash(t, seed)
    ensures s == t
  {
    hide Hash;
    hide Tail;
    hide Round;
    hide Word;
    hide Start;
    var n := |s| / 8;
    var h := Start(|s|, seed);
    HashBack(s, t, seed, seed);
    TailInjective(s, t, 8 * n, |s| % 8, Rounds(s, n, h), Rounds(t, n, h));
    RoundsInjective(s, t, b + 1, n, h);
    SameRounds(s, t, b, h);
    RoundInjective(Rounds(s, b, h), Word(s, 8 * b), Rounds(t, b, h), Word(t, 8 * b));
    WordInjective(s, t, 8 * b);
  }

  /** And so have two keys that differ only in the bytes after the last block. */
  lemma NoCollisionInTail(s: seq<bv8>, t: seq<bv8>, seed: bv32)
    requires |s| == |t| <= INT_MAX && Same(s, t, 0, 8 * (|s| / 8)) && Hash(s, seed) == Hash(t, seed)
    ensures s == t
  {
    hide Hash;
    hide Tail;
    hide Rounds;
    hide Start;
    var n := |s| / 8;
    var h := Start(|s|, seed);
    HashBack(s, t, seed, seed);
    SameRounds(s, t, n, h);
    TailInjective(s, t, 8 * n, |s| % 8, Rounds(s, n, h), Rounds(t, n, h));
  }

  /** One key has different hashes under different seeds. */
  lemma NoCollisionOfSeeds(key: seq<bv8>, seed: bv32, seed': bv32)
    requires |key| <= INT_MAX && Hash(key, seed) == Hash(key, seed')
    ensures seed == seed'
  {
    hide Hash;
    hide Tail;
    hide Rounds;
    hide Start;
    var n := |key| / 8;
    var h, h' := Start(|key|, seed), Start(|key|, seed');
    HashBack(key, key, seed, seed');
    TailInjective(key, key, 8 * n, |key| % 8, Rounds(key, n, h), Rounds(key, n, h'));
    RoundsOfStart(key, n, h, h');
    StartInjective(|key|, seed, |key|, seed');
  }

  lemma {:induction false} RoundsOfStart(key: seq<bv8>, n: nat, h: bv64, h': bv64)
    requires 8 * n <= |key| && Rounds(key, n, h) == Rounds(key, n, h')
    ensures h == h'
  {
    hide Round;
    if n > 0 {
      var at := 8 * (n - 1);
      RoundInjective(Rounds(key, n - 1, h), Word(key, at), Rounds(key, n - 1, h'), Word(key, at));
      RoundsOfStart(key, n - 1, h, h');
    }
  }

  /** The hash of no bytes. */
  lemma HashOfNothing()
    ensures Hash([], 0) == 0 && Hash([], 1) == 0xc6a4_a793_5bd0_64dc
  {
    hide Times;
    hide Finish;
    NoTail([], 0, 0);
    NoTail([], 0, 1);
    KnownSteps();
  }

  /** The hash of a key of one block and three bytes. */
  lemma KnownHash(key: seq<bv8>)
    requires key == [1, 2, 3, 4, 5, 6, 7, 8, 9, 10, 11]
    ensures Hash(key, 12) == 0x6bf5_25e4_fdef_a8b3
  {
    hide Times;
    hide Fold;
    hide Finish;
    hide Round;
    hide Word;
    hide Rounds;
    hide Tail;
    KnownSteps();
    KnownBlock(key);
    KnownTail(key);
  }

  lemma KnownBlock(key: seq<bv8>)
    requires key == [1, 2, 3, 4, 5, 6, 7, 8, 9, 10, 11]
    ensures Rounds(key, 1, 0x8913_3354_f205_096b) == 0x0b01_43d2_110d_b134
  {
    hide Word;
    hide Round;
    KnownParts(key);
    KnownSteps();
    assert Rounds(key, 0, 0x8913_3354_f205_096b) == 0x8913_3354_f205_096b;
  }

  lemma KnownTail(key: seq<bv8>)
    requires key == [1, 2, 3, 4, 5, 6, 7, 8, 9, 10, 11]
    ensures Tail(key, 8, 3, 0x0b01_43d2_110d_b134) == 0x0b01_43d2_1106_bb3d
  {
    hide Placed;
    KnownParts(key);
    NoTail(key, 8, 0x0b01_43d2_1106_bb3d);
    assert Tail(key, 8, 1, 0x0b01_43d2_1106_bb34) == 0x0b01_43d2_1106_bb3d;
    assert Tail(key, 8, 2, 0x0b01_43d2_1106_b134) == 0x0b01_43d2_1106_bb3d;
  }

  lemma KnownParts(key: seq<bv8>)
    requires key == [1, 2, 3, 4, 5, 6, 7, 8, 9, 10, 11]
    ensures Word(key, 0) == 0x0807_0605_0403_0201
    ensures Placed(key[8], 0) == 0x9 && Placed(key[9], 1) == 0xa00 && Placed(key[10], 2) == 0xb_0000
  {
  }

  lemma KnownSteps()
    ensures Start(0, 0) == 0 && Start(0, 1) == 1 && Start(11, 12) == 0x8913_3354_f205_096b
    ensures Round(0x8913_3354_f205_096b, 0x0807_0605_0403_0201) == 0x0b01_43d2_110d_b134
    ensures Times(0x0b01_43d2_1106_bb3d) == 0xe51a_44d7_9522_7f81
    ensures Finish(0xe51a_44d7_9522_7f81) == 0x6bf5_25e4_fdef_a8b3
    ensures Finish(0) == 0 && Finish(1) == 0xc6a4_a793_5bd0_64dc
  {
  }
}
