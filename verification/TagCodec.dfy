/** Integers by nibbles and tags by groups of seven bits (deps/libevent/event_tagging.c). */
module TagCodec {
  import opened Bytes

  function Pow16(n: nat): (p: nat)
    ensures p >= 1
  {
    if n == 0 then 1 else 16 * Pow16(n - 1)
  }

  /** Nibble k of an encoded integer: the low half of a byte for an odd k, the high half
      for an even one.  Nibble 0 counts the others; nibble 1 is the least significant. */
  function Nibble(data: seq<Byte>, k: nat): (n: nat)
    requires k / 2 < |data|
    ensures n < 16
  {
    if k % 2 == 1 then data[k / 2] % 16 else data[k / 2] / 16
  }

  /** The number whose lowest nibbles are those from i on below off, and whose rest is high. */
  function Value(data: seq<Byte>, i: nat, off: nat, high: nat): nat
    requires off <= 2 * |data|
    decreases off - i
  {
    if i >= off then high else Nibble(data, i) + 16 * Value(data, i + 1, off, high)
  }

  /** Sets nibble k. */
  function SetNibble(b: Byte, k: nat, v: nat): (r: Byte)
    requires v < 16
    ensures k % 2 == 1 ==> r % 16 == v && r / 16 == b / 16
    ensures k % 2 == 0 ==> r / 16 == v && r % 16 == b % 16
  {
    if k % 2 == 1 then b / 16 * 16 + v else v * 16 + b % 16
  }

  lemma {:induction false} ValueOther(data: seq<Byte>, data': seq<Byte>, i: nat, off: nat, high: nat)
    requires |data| == |data'| && off <= 2 * |data|
    requires forall k | i <= k < off :: Nibble(data, k) == Nibble(data', k)
    ensures Value(data, i, off, high) == Value(data', i, off, high)
    decreases off - i
  {
    if i < off {
      ValueOther(data, data', i + 1, off, high);
    }
  }

  lemma {:induction false} ValueMore(data: seq<Byte>, i: nat, off: nat, high: nat)
    requires i <= off && off + 1 <= 2 * |data| && Nibble(data, off) == high % 16
    ensures Value(data, i, off + 1, high / 16) == Value(data, i, off, high)
    decreases off - i
  {
    if i < off {
      ValueMore(data, i + 1, off, high);
    } else {
      assert Value(data, off + 1, off + 1, high / 16) == high / 16;
    }
  }

  /** The nibbles of an encoded number. */
  function Digits(number: nat): (n: nat)
  {
    if number == 0 then 0 else 1 + Digits(number / 16)
  }

  /** No fewer nibbles hold the number. */
  lemma {:induction false} DigitsLeast(number: nat)
    ensures number < Pow16(Digits(number)) && (number > 0 ==> Pow16(Digits(number) - 1) <= number)
  {
    if number > 0 {
      DigitsLeast(number / 16);
      assert Digits(number) - 1 == Digits(number / 16);
    }
  }

  lemma {:induction false} DigitsBound(number: nat, max: nat)
    requires number < Pow16(max)
    ensures Digits(number) <= max
    decreases max
  {
    if number > 0 {
      DigitsBound(number / 16, max - 1);
    }
  }

  /** s starts with an encoding of number: the count of nibbles less one, and the nibbles. */
  predicate EncodesInt(s: seq<Byte>, number: nat, len: nat)
  {
    && 0 < len <= |s|
    && var n := Nibble(s, 0) + 1;
    && len == n / 2 + 1
    && Value(s, 1, n + 1, 0) == number
  }

  /** The loop of ENCODE_INT_INTERNAL: nibbles from the lowest on, into zeroed bytes. */
  method FillNibbles(data: array<Byte>, number: nat, max: nat) returns (off: nat)
    requires data.Length == max / 2 + 1 && max % 2 == 0 && Digits(number) <= max
    requires forall k | 0 <= k < data.Length :: data[k] == 0
    modifies data
    ensures off == Digits(number) + 1 && Value(data[..], 1, off, 0) == number
    ensures forall k | off <= k <= max + 1 :: Nibble(data[..], k) == 0
  {
    off := 1;
    var rest := number;
    assert forall k | 0 <= k <= max + 1 :: Nibble(data[..], k) == 0;
    while rest > 0
      invariant 1 <= off <= max + 1 && Digits(rest) + off - 1 == Digits(number)
      invariant Value(data[..], 1, off, rest) == number
      invariant forall k | off <= k <= max + 1 :: Nibble(data[..], k) == 0
      decreases rest
    {
      PutNibble(data, off, rest % 16, rest);
      rest := rest / 16;
      off := off + 1;
    }
  }

  /** ENCODE_INT_INTERNAL, for numbers of max nibbles. */
  method EncodeIntInternal(number: nat, max: nat) returns (out: seq<Byte>)
    requires number < Pow16(max) && max in {8, 16}
    ensures EncodesInt(out, number, |out|) && |out| <= max / 2 + 1
    ensures 0 < |out| && Nibble(out, 0) < max
    ensures |out| == if number == 0 then 1 else Digits(number) / 2 + 1
  {
    hide Value;
    hide Nibble;
    hide Pow16;
    hide EncodesInt;
    DigitsBound(number, max);
    var data := new Byte[max / 2 + 1](_ => 0);
    var off := FillNibbles(data, number, max);
    var nibbles := 0;
    if off > 2 {
      nibbles := off - 2;
    }
    ghost var d := data[..];
    data[0] := SetNibble(data[0], 0, nibbles);
    FirstNibble(d, data[..], nibbles, off, number);
    out := data[..(off + 1) / 2];
    CutInt(data[..], (off + 1) / 2, number);
  }

  method PutNibble(data: array<Byte>, off: nat, v: nat, ghost rest: nat)
    requires 1 <= off < 2 * data.Length && v == rest % 16
    modifies data
    ensures Value(data[..], 1, off + 1, rest / 16) == old(Value(data[..], 1, off, rest))
    ensures forall k | 0 <= k < 2 * data.Length && k != off :: Nibble(data[..], k) == old(Nibble(data[..], k))
  {
    ghost var d := data[..];
    data[off / 2] := SetNibble(data[off / 2], off, v);
    forall k | 0 <= k < 2 * data.Length && k != off ensures Nibble(data[..], k) == Nibble(d, k) {
      assert k / 2 != off / 2 ==> data[..][k / 2] == d[k / 2];
    }
    ValueOther(d, data[..], 1, off, rest);
    ValueMore(data[..], 1, off, rest);
  }

  lemma FirstNibble(d: seq<Byte>, d': seq<Byte>, nibbles: nat, off: nat, number: nat)
    requires |d| == |d'| > 0 && 1 <= off < 2 * |d| && Value(d, 1, off, 0) == number
    requires nibbles == (if off > 2 then off - 2 else 0)
    requires (forall k | off <= k < 2 * |d| :: Nibble(d, k) == 0) && nibbles < 16
    requires d' == d[0 := SetNibble(d[0], 0, nibbles)]
    ensures EncodesInt(d', number, (off + 1) / 2) && 0 < (off + 1) / 2 <= |d'|
    ensures Nibble(d'[..(off + 1) / 2], 0) == nibbles
  {
    forall k | 1 <= k < 2 * |d| ensures Nibble(d', k) == Nibble(d, k) {
    }
    var n := nibbles + 1;
    if off == 1 {
      ValueMore(d, 1, 1, 0);
    }
    ValueOther(d, d', 1, n + 1, 0);
  }

  lemma CutInt(d: seq<Byte>, len: nat, number: nat)
    requires EncodesInt(d, number, len)
    ensures EncodesInt(d[..len], number, len)
  {
    IntWithAnyTail(d, len, number, []);
    assert d[..len] + [] == d[..len];
  }

  /** What comes after an encoded integer does not matter. */
  lemma IntWithAnyTail(d: seq<Byte>, len: nat, number: nat, tail: seq<Byte>)
    requires EncodesInt(d, number, len)
    ensures EncodesInt(d[..len] + tail, number, len)
  {
    var n := Nibble(d, 0) + 1;
    ValuePrefix(d, d[..len] + tail, 1, n + 1, len);
  }

  lemma {:induction false} ValuePrefix(d: seq<Byte>, d': seq<Byte>, i: nat, off: nat, len: nat)
    requires len <= |d| && len <= |d'| && d[..len] == d'[..len] && (i < off ==> off <= 2 * len)
    requires off <= 2 * |d| && off <= 2 * |d'|
    ensures Value(d, i, off, 0) == Value(d', i, off, 0)
    decreases off - i
  {
    if i < off {
      assert d[i / 2] == d[..len][i / 2] == d'[i / 2];
      ValuePrefix(d, d', i + 1, off, len);
    }
  }

  datatype IntResult = NoInt | Int(number: nat, len: nat)

  /** DECODE_INT_INTERNAL on the bytes from an offset on. */
  method DecodeIntInternal(s: seq<Byte>, max: nat) returns (r: IntResult)
    requires max in {8, 16}
    ensures r == NoInt <==> s == [] || Nibble(s, 0) + 1 > max || (Nibble(s, 0) + 1) / 2 + 1 > |s|
    ensures r.Int? ==> EncodesInt(s, r.number, r.len) && r.number < Pow16(max)
  {
    hide Value;
    hide Pow16;
    if |s| <= 0 {
      return NoInt;
    }
    var nibbles := s[0] / 16 + 1;
    assert nibbles == Nibble(s, 0) + 1;
    hide Nibble;
    if nibbles > max || nibbles / 2 + 1 > |s| {
      return NoInt;
    }
    var n := nibbles;
    var number := 0;
    ValueNone(s, n + 1);
    while nibbles > 0
      invariant 0 <= nibbles <= n && 0 <= number
      invariant number == Value(s, nibbles + 1, n + 1, 0) && number < Pow16(n - nibbles)
    {
      ValueFirst(s, nibbles, n + 1);
      PowNext(n - nibbles);
      number := number * 16 + if nibbles % 2 == 1 then s[nibbles / 2] % 16 else s[nibbles / 2] / 16;
      nibbles := nibbles - 1;
    }
    PowGrows(n, max);
    r := Int(number, n / 2 + 1);
  }

  lemma ValueNone(data: seq<Byte>, off: nat)
    requires off <= 2 * |data|
    ensures Value(data, off, off, 0) == 0 < Pow16(0)
  {
  }

  lemma ValueFirst(data: seq<Byte>, i: nat, off: nat)
    requires i < off <= 2 * |data|
    ensures Value(data, i, off, 0) == Value(data, i + 1, off, 0) * 16
      + if i % 2 == 1 then data[i / 2] % 16 else data[i / 2] / 16
  {
  }

  lemma PowNext(n: nat)
    ensures Pow16(n + 1) == 16 * Pow16(n)
  {
  }

  lemma {:induction false} PowGrows(n: nat, max: nat)
    requires n <= max
    ensures Pow16(n) <= Pow16(max)
    decreases max
  {
    if n < max {
      PowGrows(n, max - 1);
    }
  }

  /** The encoding says what the number and the length are. */
  lemma IntUnique(s: seq<Byte>, a: nat, alen: nat, b: nat, blen: nat)
    requires EncodesInt(s, a, alen) && EncodesInt(s, b, blen)
    ensures a == b && alen == blen
  {
  }

  /** Three nibbles, the count of them first and the least significant next. */
  lemma KnownInt()
    ensures EncodesInt([0x2c, 0xba], 0xabc, 2)
  {
    var s: seq<Byte> := [0x2c, 0xba];
    assert Value(s, 3, 4, 0) == 0xa && Value(s, 2, 4, 0) == 0xab;
  }

  // Tags.

  const TWO32 := 0x1_0000_0000

  function Pow128(n: nat): (p: nat)
    ensures p >= 1
  {
    if n == 0 then 1 else 128 * Pow128(n - 1)
  }

  /** The number whose lowest groups of seven bits are in bytes i on below off, and whose
      rest is high. */
  function Groups(s: seq<Byte>, i: nat, off: nat, high: nat): nat
    requires off <= |s|
    decreases off - i
  {
    if i >= off then high else s[i] % 128 + 128 * Groups(s, i + 1, off, high)
  }

  /** s starts with an encoding of tag: all its bytes but the last have the high bit. */
  predicate EncodesTag(s: seq<Byte>, tag: nat, len: nat)
  {
    && 0 < len <= |s|
    && (forall i | 0 <= i < len - 1 :: s[i] >= 128) && s[len - 1] < 128
    && Groups(s, 0, len, 0) == tag
  }

  lemma {:induction false} GroupsPrefix(s: seq<Byte>, s': seq<Byte>, i: nat, off: nat, high: nat)
    requires off <= |s| && off <= |s'| && s[..off] == s'[..off]
    ensures Groups(s, i, off, high) == Groups(s', i, off, high)
    decreases off - i
  {
    if i < off {
      assert s[i] == s[..off][i] == s'[i];
      GroupsPrefix(s, s', i + 1, off, high);
    }
  }

  lemma {:induction false} GroupsMore(s: seq<Byte>, i: nat, off: nat, high: nat)
    requires i <= off < |s|
    ensures Groups(s, i, off + 1, high) == Groups(s, i, off, s[off] % 128 + 128 * high)
    decreases off - i
  {
    if i < off {
      GroupsMore(s, i + 1, off, high);
    } else {
      assert Groups(s, off + 1, off + 1, high) == high;
    }
  }

  lemma Times128(a: nat, b: nat)
    ensures 128 * (a * b) == 128 * a * b
  {
  }

  lemma {:induction false} GroupsAdd(s: seq<Byte>, i: nat, off: nat, high: nat)
    requires i <= off <= |s|
    ensures Groups(s, i, off, high) == Groups(s, i, off, 0) + Pow128(off - i) * high
    ensures Groups(s, i, off, 0) < Pow128(off - i)
    decreases off - i
  {
    if i < off {
      GroupsAdd(s, i + 1, off, high);
      Times128(Pow128(off - i - 1), high);
    }
  }

  /** evtag_encode_tag. */
  method EncodeTagBytes(tag: nat) returns (out: seq<Byte>)
    requires tag < TWO32
    ensures EncodesTag(out, tag, |out|) && |out| <= 5
  {
    hide Groups;
    out := [];
    var rest := tag;
    var more := true;
    GroupsNone(tag);
    while more
      invariant |out| <= 5 && (more ==> |out| < 5 && rest < Pow128(5 - |out|)) && 0 <= rest
      invariant Groups(out, 0, |out|, rest) == tag && (!more ==> rest == 0 && |out| > 0 && out[|out| - 1] < 128)
      invariant forall i | 0 <= i < |out| - if more then 0 else 1 :: out[i] >= 128
      decreases more, rest
    {
      var lower := rest % 128;
      ghost var was, high := out, rest;
      rest := rest / 128;
      if rest > 0 {
        lower := lower + 128;
      }
      out := out + [lower];
      GroupsPrefix(was, out, 0, |was|, high);
      GroupsMore(out, 0, |was|, rest);
      more := rest > 0;
    }
  }

  lemma GroupsNone(tag: nat)
    ensures Groups([], 0, 0, tag) == tag && (tag < TWO32 ==> tag < Pow128(5))
  {
    assert Pow128(1) == 128 && Pow128(2) == 16384 && Pow128(3) == 2097152;
  }

  /** Outside: the decoder goes on past the bytes it has made contiguous. */
  datatype TagResult = NoTag | Outside | Tag(number: nat, len: nat)

  const TAG_BYTES := 5

  /** The loop of decode_tag_internal, over the first bytes of len.  (When all five bytes
      that are made contiguous have the high bit it goes on past them.) */
  method DecodeTagBytes(data: seq<Byte>, len: nat) returns (r: TagResult)
    requires |data| == if len < TAG_BYTES then len else TAG_BYTES
    ensures r == NoTag <==> len <= TAG_BYTES && forall i | 0 <= i < |data| :: data[i] >= 128
    ensures r == Outside <==> len > TAG_BYTES && forall i | 0 <= i < |data| :: data[i] >= 128
    ensures r.Tag? ==> 0 < r.len <= |data| && exists tag: nat :: EncodesTag(data, tag, r.len) && r.number == tag % TWO32
  {
    hide Groups;
    hide Pow128;
    var number, count, weight := 0, 0, 1;
    TagStart(data);
    while count < len
      invariant 0 <= count <= |data| && forall i | 0 <= i < count :: data[i] >= 128
      invariant 0 <= number && weight == Pow128(count) && (count < TAG_BYTES ==> number == Groups(data, 0, count, 0))
    {
      if count == |data| {
        return Outside;
      }
      var lower := data[count];
      TagStep(data, count, number, weight);
      number := (number + weight * (lower % 128)) % TWO32;
      weight := weight * 128;
      count := count + 1;
      if lower < 128 {
        assert EncodesTag(data, Groups(data, 0, count, 0), count);
        return Tag(number, count);
      }
    }
    r := NoTag;
  }

  /** Five bytes with the high bit, and another one behind them. */
  method SixthByteOutside() returns (r: TagResult)
    ensures r == Outside
  {
    r := DecodeTagBytes([128, 128, 128, 128, 128], 6);
  }

  lemma TagStart(data: seq<Byte>)
    ensures Groups(data, 0, 0, 0) == 0 && Pow128(0) == 1
  {
  }

  lemma TagStep(data: seq<Byte>, count: nat, number: nat, weight: nat)
    requires count < |data| && count < TAG_BYTES && number == Groups(data, 0, count, 0) && weight == Pow128(count)
    ensures Groups(data, 0, count + 1, 0) == number + weight * (data[count] % 128) && weight * 128 == Pow128(count + 1)
    ensures count + 1 < TAG_BYTES ==> Groups(data, 0, count + 1, 0) < TWO32
  {
    GroupsMore(data, 0, count, 0);
    GroupsAdd(data, 0, count, data[count] % 128);
    GroupsAdd(data, 0, count + 1, 0);
    SmallTag(count + 1, Groups(data, 0, count + 1, 0));
  }

  lemma SmallTag(count: nat, tag: nat)
    requires count <= TAG_BYTES && tag < Pow128(count)
    ensures count < TAG_BYTES ==> tag < TWO32
  {
    if count < TAG_BYTES {
      Pow128Grows(count, 4);
      assert Pow128(4) == 0x1000_0000 by {
        assert Pow128(1) == 128 && Pow128(2) == 16384 && Pow128(3) == 2097152;
      }
    }
  }

  lemma {:induction false} Pow128Grows(n: nat, max: nat)
    requires n <= max
    ensures Pow128(n) <= Pow128(max)
    decreases max
  {
    if n < max {
      Pow128Grows(n, max - 1);
    }
  }

  lemma TagUnique(s: seq<Byte>, a: nat, alen: nat, b: nat, blen: nat)
    requires EncodesTag(s, a, alen) && EncodesTag(s, b, blen)
    ensures a == b && alen == blen
  {
  }

  lemma TagWithAnyTail(d: seq<Byte>, len: nat, tag: nat, tail: seq<Byte>)
    requires EncodesTag(d, tag, len)
    ensures EncodesTag(d[..len] + tail, tag, len)
  {
    var d' := d[..len] + tail;
    assert d'[..len] == d[..len];
    GroupsPrefix(d, d', 0, len, 0);
  }

  /** Two groups of seven bits, the less significant first. */
  lemma KnownTag()
    ensures EncodesTag([0xb4, 0x24], 0x1234, 2)
  {
    var s: seq<Byte> := [0xb4, 0x24];
    assert Groups(s, 1, 2, 0) == 0x24;
  }
}
