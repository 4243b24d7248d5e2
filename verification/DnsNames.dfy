/** Domain names in messages (deps/libevent/evdns.c): what the bytes at a place spell, the
    parser, and names as text. */
module DnsNames {
  import opened Bytes

  const DOT: Byte := 46
  const MAX_LABEL := 63
  const MAX_NAME := 255

  /** The target of a compression pointer. */
  function Target(high: Byte, low: Byte): nat
  {
    high % 64 * 256 + low
  }

  /** What a reader has after some text and then the rest of a name. */
  function Glue(text: seq<Byte>, rest: seq<Byte>): seq<Byte>
  {
    if rest == [] then text else if text == [] then rest else text + [DOT] + rest
  }

  /** The bytes below n spell a name from at on, over h pointers. */
  predicate Reads(b: seq<Byte>, n: nat, at: nat, name: seq<Byte>, h: nat)
    requires n <= |b|
    decreases |name|, h
  {
    && at < n
    && if b[at] == 0 then
         name == []
       else if b[at] > MAX_LABEL then
         at + 1 < n && h > 0 && Target(b[at], b[at + 1]) < n && Reads(b, n, Target(b[at], b[at + 1]), name, h - 1)
       else
         var len := b[at];
         && at + 1 + len <= n && len <= |name| && name[..len] == b[at + 1..at + 1 + len]
         && if |name| == len then Reads(b, n, at + 1 + len, [], h)
            else name[len] == DOT && len + 1 < |name| && Reads(b, n, at + 1 + len, name[len + 1..], h)
  }

  /** Where the encoding at a place ends: after a pointer or the final zero. */
  function Skip(b: seq<Byte>, n: nat, at: nat): nat
    requires n <= |b|
    decreases n - at
  {
    if at >= n then at
    else if b[at] == 0 then at + 1
    else if b[at] > MAX_LABEL then at + 2
    else Skip(b, n, at + 1 + b[at])
  }

  /** Bad: the parser gives up.  Outside: a label runs past the end of the packet, and the
      parser copies bytes from outside before it gives up. */
  datatype Parsed = Bad | Outside | Name(text: seq<Byte>, next: nat)

  /** The loop of name_parse: at j, after some pointers, with the place to go on from (-1
      before the first pointer) and the text so far. */
  function Parse(b: seq<Byte>, n: nat, j: nat, hops: nat, end: int, text: seq<Byte>, room: nat): Parsed
    requires n <= |b| && hops <= n
    decreases n - hops, n - j
  {
    if j >= n then
      Bad
    else if b[j] == 0 then
      if |text| >= room then Bad else Name(text, if end < 0 then j + 1 else end)
    else if b[j] > MAX_LABEL then
      if j + 1 >= n || Target(b[j], b[j + 1]) >= n || hops + 1 > n then
        Bad
      else
        Parse(b, n, Target(b[j], b[j + 1]), hops + 1, if end < 0 then j + 2 else end, text, room)
    else
      var len := b[j];
      var dotted := if text == [] then text else text + [DOT];
      if |dotted| > |text| >= room - 1 || |dotted| + len >= room then
        Bad
      else if j + 1 + len > n then
        Outside
      else
        Parse(b, n, j + 1 + len, hops, end, dotted + b[j + 1..j + 1 + len], room)
  }

  /** name_parse. */
  method NameParse(packet: seq<Byte>, length: nat, idx: nat, room: nat) returns (r: Parsed)
    requires length <= |packet|
    ensures r == Parse(packet, length, idx, 0, -1, [], room)
  {
    var nameEnd, j, ptrCount, cp := -1, idx, 0, [];
    while true
      invariant 0 <= j && 0 <= ptrCount <= length
      invariant Parse(packet, length, idx, 0, -1, [], room) == Parse(packet, length, j, ptrCount, nameEnd, cp, room)
      decreases length - ptrCount, length - j
    {
      if j >= length {
        return Bad;
      }
      var labelLen := packet[j];
      j := j + 1;
      if labelLen == 0 {
        break;
      }
      if labelLen > MAX_LABEL {
        if j >= length {
          return Bad;
        }
        var ptrLow := packet[j];
        j := j + 1;
        if nameEnd < 0 {
          nameEnd := j;
        }
        j := Target(labelLen, ptrLow);
        if j >= length {
          return Bad;
        }
        ptrCount := ptrCount + 1;
        if ptrCount > length {
          return Bad;
        }
        continue;
      }
      var dotted := cp;
      if cp != [] {
        if |cp| + 1 >= room {
          return Bad;
        }
        dotted := cp + [DOT];
      }
      if |dotted| + labelLen >= room {
        return Bad;
      }
      if j + labelLen > length {
        return Outside;
      }
      cp := dotted + packet[j..j + labelLen];
      j := j + labelLen;
    }
    if |cp| >= room {
      return Bad;
    }
    r := Name(cp, if nameEnd < 0 then j else nameEnd);
  }

  /** The parser returns what the bytes spell, if there is room for it, and goes on after
      the first pointer or the final zero. */
  lemma {:induction false} ParseReads(b: seq<Byte>, n: nat, at: nat, name: seq<Byte>, h: nat, hops: nat, end: int,
        text: seq<Byte>, room: nat)
    requires n <= |b| && Reads(b, n, at, name, h) && hops + h <= n
    ensures Parse(b, n, at, hops, end, text, room) ==
      if |Glue(text, name)| < room then Name(Glue(text, name), if end < 0 then Skip(b, n, at) else end) else Bad
    decreases |name|, h
  {
    hide Glue;
    if b[at] == 0 {
      GlueNothing(text);
    } else if b[at] > MAX_LABEL {
      ParseReads(b, n, Target(b[at], b[at + 1]), name, h - 1, hops + 1, if end < 0 then at + 2 else end, text, room);
    } else {
      var len := b[at];
      var piece := b[at + 1..at + 1 + len];
      var rest := if |name| == len then [] else name[len + 1..];
      GlueMore(text, name, piece, rest);
      if |Dotted(text)| + len < room {
        ParseReads(b, n, at + 1 + len, rest, h, hops, end, Dotted(text) + piece, room);
      }
    }
  }

  /** From at on, after some pointers and length bytes of text, labels that have room lead to
      one that runs past the end of the packet. */
  predicate RunsOut(b: seq<Byte>, n: nat, at: nat, hops: nat, length: nat, room: nat)
    requires n <= |b| && hops <= n
    decreases n - hops, n - at
  {
    && at < n && b[at] > 0
    && if b[at] > MAX_LABEL then
         && at + 1 < n && Target(b[at], b[at + 1]) < n && hops < n
         && RunsOut(b, n, Target(b[at], b[at + 1]), hops + 1, length, room)
       else
         var start := if length == 0 then 0 else length + 1;
         && start + b[at] < room
         && (at + 1 + b[at] > n || RunsOut(b, n, at + 1 + b[at], hops, start + b[at], room))
  }

  /** The parser copies bytes from outside the packet exactly if its labels run out of it. */
  lemma {:induction false} OutsideIfRunsOut(b: seq<Byte>, n: nat, at: nat, hops: nat, end: int, text: seq<Byte>,
        room: nat)
    requires n <= |b| && hops <= n
    ensures Parse(b, n, at, hops, end, text, room) == Outside <==> RunsOut(b, n, at, hops, |text|, room)
    decreases n - hops, n - at
  {
    if at < n && b[at] > MAX_LABEL && at + 1 < n && Target(b[at], b[at + 1]) < n && hops < n {
      OutsideIfRunsOut(b, n, Target(b[at], b[at + 1]), hops + 1, if end < 0 then at + 2 else end, text, room);
    } else if at < n && 0 < b[at] <= MAX_LABEL && |Dotted(text)| + b[at] < room && at + 1 + b[at] <= n {
      var piece := b[at + 1..at + 1 + b[at]];
      OutsideIfRunsOut(b, n, at + 1 + b[at], hops, end, Dotted(text) + piece, room);
    }
  }

  /** A packet of three bytes with a label of five. */
  lemma LabelOutside()
    ensures Parse([5, 97, 98], 3, 0, 0, -1, [], 256) == Outside
  {
    assert RunsOut([5, 97, 98], 3, 0, 0, 0, 256);
    OutsideIfRunsOut([5, 97, 98], 3, 0, 0, -1, [], 256);
  }

  function Dotted(text: seq<Byte>): seq<Byte>
  {
    if text == [] then text else text + [DOT]
  }

  lemma GlueNothing(text: seq<Byte>)
    ensures Glue(text, []) == text
  {
  }

  lemma GlueMore(text: seq<Byte>, name: seq<Byte>, piece: seq<Byte>, rest: seq<Byte>)
    requires piece != [] && piece <= name
    requires
      if |name| == |piece| then rest == []
      else name[|piece|] == DOT && |piece| + 1 < |name| && rest == name[|piece| + 1..]
    ensures Glue(Dotted(text) + piece, rest) == Glue(text, name)
    ensures |Glue(text, name)| >= |Dotted(text)| + |piece|
  {
    if rest == [] {
      assert name == piece;
    } else {
      assert name == piece + [DOT] + rest;
      if text == [] {
        assert Dotted(text) + piece == piece;
      } else {
        assert text + [DOT] + piece + [DOT] + rest == text + [DOT] + (piece + [DOT] + rest);
      }
    }
  }

  lemma ReadsLabel(b: seq<Byte>, n: nat, at: nat, rest: seq<Byte>, h: nat)
    requires at < n <= |b| && 0 < b[at] <= MAX_LABEL && at + 1 + b[at] <= n && Reads(b, n, at + 1 + b[at], rest, h)
    ensures var piece := b[at + 1..at + 1 + b[at]];
      Reads(b, n, at, if rest == [] then piece else piece + [DOT] + rest, h)
  {
    var piece := b[at + 1..at + 1 + b[at]];
    assert (piece + [DOT] + rest)[|piece| + 1..] == rest;
  }

  /** The parser accepts nothing but what the bytes spell. */
  lemma {:induction false} ParseOnlyReads(b: seq<Byte>, n: nat, at: nat, hops: nat, end: int, text: seq<Byte>,
        room: nat)
    returns (name: seq<Byte>, h: nat)
    requires n <= |b| && hops <= n && Parse(b, n, at, hops, end, text, room).Name?
    ensures Reads(b, n, at, name, h) && hops + h <= n
    ensures Parse(b, n, at, hops, end, text, room).text == Glue(text, name)
    decreases n - hops, n - at
  {
    if b[at] == 0 {
      name, h := [], 0;
    } else if b[at] > MAX_LABEL {
      name, h := ParseOnlyReads(b, n, Target(b[at], b[at + 1]), hops + 1, if end < 0 then at + 2 else end, text, room);
      h := h + 1;
    } else {
      var len := b[at];
      var piece := b[at + 1..at + 1 + len];
      var rest;
      rest, h := ParseOnlyReads(b, n, at + 1 + len, hops, end, Dotted(text) + piece, room);
      name := if rest == [] then piece else piece + [DOT] + rest;
      ReadsLabel(b, n, at, rest, h);
      hide Reads;
      assert rest != [] ==> name[len + 1..] == rest;
      GlueMore(text, name, piece, rest);
      hide Glue;
    }
  }

  /** As Reads, with every pointer to an earlier place. */
  predicate Spells(b: seq<Byte>, n: nat, at: nat, name: seq<Byte>, h: nat)
    requires n <= |b|
    decreases |name|, h
  {
    && at < n
    && if b[at] == 0 then
         name == []
       else if b[at] > MAX_LABEL then
         at + 1 < n && h > 0 && Target(b[at], b[at + 1]) < at && Spells(b, n, Target(b[at], b[at + 1]), name, h - 1)
       else
         var len := b[at];
         && at + 1 + len <= n && len <= |name| && name[..len] == b[at + 1..at + 1 + len]
         && if |name| == len then Spells(b, n, at + 1 + len, [], h)
            else name[len] == DOT && len + 1 < |name| && Spells(b, n, at + 1 + len, name[len + 1..], h)
  }

  lemma {:induction false} SpellsReads(b: seq<Byte>, n: nat, at: nat, name: seq<Byte>, h: nat)
    requires n <= |b| && Spells(b, n, at, name, h)
    ensures Reads(b, n, at, name, h)
    decreases |name|, h
  {
    if b[at] > MAX_LABEL {
      SpellsReads(b, n, Target(b[at], b[at + 1]), name, h - 1);
    } else if b[at] > 0 {
      var len := b[at];
      SpellsReads(b, n, at + 1 + len, if |name| == len then [] else name[len + 1..], h);
    }
  }

  /** Bytes from n on do not matter. */
  lemma SamePrefix(b: seq<Byte>, b': seq<Byte>, n: nat, from: nat, to: nat)
    requires n <= |b| && n <= |b'| && b[..n] == b'[..n] && from <= to <= n
    ensures b[from..to] == b'[from..to] && (from < n ==> b[from] == b'[from])
  {
    forall i | 0 <= i < n ensures b[i] == b'[i] {
      assert b[i] == b[..n][i] == b'[..n][i];
    }
  }

  lemma {:induction false} SpellsGrow(b: seq<Byte>, n: nat, at: nat, name: seq<Byte>, h: nat, b': seq<Byte>, n': nat)
    requires n <= |b| && n <= n' <= |b'| && b[..n] == b'[..n] && Spells(b, n, at, name, h)
    ensures Spells(b', n', at, name, h)
    decreases |name|, h
  {
    SamePrefix(b, b', n, at, at);
    if b[at] > MAX_LABEL {
      SamePrefix(b, b', n, at + 1, at + 1);
      SpellsGrow(b, n, Target(b[at], b[at + 1]), name, h - 1, b', n');
    } else if b[at] > 0 {
      var len := b[at];
      SamePrefix(b, b', n, at + 1, at + 1 + len);
      SpellsGrow(b, n, at + 1 + len, if |name| == len then [] else name[len + 1..], h, b', n');
    }
  }

  // Names as text.

  /** The length of the first label. */
  function FirstLabel(name: seq<Byte>): (n: nat)
    ensures n <= |name| && (forall i | 0 <= i < n :: name[i] != DOT) && (n < |name| ==> name[n] == DOT)
  {
    if name == [] || name[0] == DOT then 0 else 1 + FirstLabel(name[1..])
  }

  /** The part of a name before its first empty label. */
  function Upto(name: seq<Byte>): (r: seq<Byte>)
    ensures |r| <= |name|
  {
    var n := FirstLabel(name);
    if n == 0 || n == |name| then name[..n]
    else if Upto(name[n + 1..]) == [] then name[..n]
    else name[..n] + [DOT] + Upto(name[n + 1..])
  }

  predicate NoEmptyLabel(name: seq<Byte>)
  {
    var n := FirstLabel(name);
    n > 0 && (n < |name| ==> NoEmptyLabel(name[n + 1..]))
  }

  /** A name survives exactly when it is empty or none of its labels is. */
  lemma {:induction false} UptoIsName(name: seq<Byte>)
    ensures Upto(name) == name <==> name == [] || NoEmptyLabel(name)
    ensures NoEmptyLabel(name) ==> name != []
    decreases |name|
  {
    var n := FirstLabel(name);
    if 0 < n < |name| {
      UptoIsName(name[n + 1..]);
      assert name == name[..n] + [DOT] + name[n + 1..];
      if |Upto(name[n + 1..])| < |name[n + 1..]| {
        assert |Upto(name)| < |name|;
      }
    }
  }

  /** The longest part of a name that ends with a label and has no empty one. */
  predicate LongestPart(name: seq<Byte>, r: seq<Byte>)
  {
    && r <= name && (r == [] || NoEmptyLabel(r)) && (r == [] && name != [] ==> name[0] == DOT)
    && (r != [] && |r| < |name| ==> name[|r|] == DOT && (|r| + 1 < |name| ==> name[|r| + 1] == DOT))
  }

  lemma {:induction false} UptoIs(name: seq<Byte>)
    ensures LongestPart(name, Upto(name))
    decreases |name|
  {
    var n := FirstLabel(name);
    if n == 0 {
      assert Upto(name) == [];
    } else if n == |name| {
      assert Upto(name) == name[..n] == name;
      LabelJoined(name, []);
    } else {
      UptoIs(name[n + 1..]);
      UptoMore(name, n);
      UptoLongest(name, n, Upto(name[n + 1..]));
    }
  }

  lemma UptoLongest(name: seq<Byte>, n: nat, part: seq<Byte>)
    requires 0 < n < |name| && (forall i | 0 <= i < n :: name[i] != DOT) && name[n] == DOT
    requires LongestPart(name[n + 1..], part)
    ensures LongestPart(name, name[..n] + if part == [] then [] else [DOT] + part)
  {
    hide LongestPart;
    LongestMore(name[..n], name[n + 1..], part);
    assert name == name[..n] + ([DOT] + name[n + 1..]);
  }

  lemma LongestMore(head: seq<Byte>, rest: seq<Byte>, part: seq<Byte>)
    requires head != [] && DOT !in head && LongestPart(rest, part)
    ensures LongestPart(head + ([DOT] + rest), head + if part == [] then [] else [DOT] + part)
  {
    hide NoEmptyLabel;
    LabelJoined(head, part);
    var name := head + ([DOT] + rest);
    if part == [] {
      assert head + [] == head && head <= name;
      assert rest != [] ==> name[|head| + 1] == rest[0];
    } else {
      var r := head + ([DOT] + part);
      assert r <= name by {
        assert name == r + rest[|part|..];
      }
      assert forall i | 0 <= i < |rest| :: name[|head| + 1 + i] == rest[i];
    }
  }

  lemma UptoMore(name: seq<Byte>, n: nat)
    requires 0 < n < |name| && FirstLabel(name) == n
    ensures Upto(name) == name[..n] + if Upto(name[n + 1..]) == [] then [] else [DOT] + Upto(name[n + 1..])
  {
  }

  lemma LabelJoined(head: seq<Byte>, rest: seq<Byte>)
    requires head != [] && DOT !in head
    ensures NoEmptyLabel(head) && (NoEmptyLabel(rest) ==> NoEmptyLabel(head + ([DOT] + rest)))
  {
    var n := |head|;
    FirstLabelIs(head, n);
    FirstLabelIs(head + ([DOT] + rest), n);
    assert (head + ([DOT] + rest))[n + 1..] == rest;
  }

  lemma {:induction false} FirstLabelIs(name: seq<Byte>, n: nat)
    requires n <= |name| && (forall i | 0 <= i < n :: name[i] != DOT) && (n < |name| ==> name[n] == DOT)
    ensures FirstLabel(name) == n
  {
    if n > 0 {
      FirstLabelIs(name[1..], n - 1);
    }
  }

  /** A name of two labels of which the second is elsewhere. */
  lemma KnownName()
    ensures Spells([1, 98, 0, 1, 97, 0xc0, 0], 7, 3, [97, DOT, 98], 1)
  {
    var b: seq<Byte>, name: seq<Byte> := [1, 98, 0, 1, 97, 0xc0, 0], [97, DOT, 98];
    assert Spells(b, 7, 2, [], 0);
    assert name[2..] == [98] && b[1..2] == [98] && b[4..5] == [97];
    assert Spells(b, 7, 0, [98], 0);
    assert Spells(b, 7, 5, [98], 1);
  }

  predicate ShortLabels(name: seq<Byte>)
  {
    var n := FirstLabel(name);
    n <= MAX_LABEL && (n < |name| ==> ShortLabels(name[n + 1..]))
  }

  lemma AfterFirstLabel(name: seq<Byte>)
    ensures ShortLabels(name) ==> FirstLabel(name) <= MAX_LABEL
    ensures FirstLabel(name) < |name| && ShortLabels(name) ==> ShortLabels(name[FirstLabel(name) + 1..])
    ensures NoEmptyLabel(name) ==> FirstLabel(name) > 0
    ensures FirstLabel(name) < |name| && NoEmptyLabel(name) ==> NoEmptyLabel(name[FirstLabel(name) + 1..])
  {
  }
}
