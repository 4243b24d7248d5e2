/** What a line end is in each style of evbuffer_readln, and how a text splits into lines. */
module Lines {
  import opened Bytes

  const CR: Byte := 13
  const LF: Byte := 10

  /** What a scan looks for: one byte, or either of CR and LF. */
  datatype Want = Just(b: Byte) | Eol

  predicate Hit(w: Want, b: Byte)
  {
    match w
    case Just(c) => b == c
    case Eol => b == CR || b == LF
  }

  /** No hit in s from one index up to another. */
  predicate NoHit(w: Want, s: seq<Byte>, from: nat, to: nat)
    requires to <= |s|
  {
    forall i | from <= i < to :: !Hit(w, s[i])
  }

  /** what occurs in s at i. */
  predicate Occurs(s: seq<Byte>, what: seq<Byte>, i: nat)
  {
    i + |what| <= |s| && s[i..i + |what|] == what
  }

  predicate NoMatch(s: seq<Byte>, what: seq<Byte>, from: int, to: int)
  {
    forall i: nat | from <= i < to :: !Occurs(s, what, i)
  }

  lemma NoHitNoMatch(s: seq<Byte>, what: seq<Byte>, from: nat, to: nat)
    requires to <= |s| && what != [] && NoHit(Just(what[0]), s, from, to)
    ensures NoMatch(s, what, from, to)
  {
    forall i: nat | from <= i < to ensures !Occurs(s, what, i) {
      if i + |what| <= |s| {
        assert s[i..i + |what|][0] == s[i];
      }
    }
  }

  datatype Style = Any | CrLf | CrLfStrict | LfOnly

  /** A line end starts at i. */
  predicate EolAt(style: Style, s: seq<Byte>, i: nat)
    requires i < |s|
  {
    match style
    case Any => Hit(Eol, s[i])
    case CrLf => s[i] == LF || Occurs(s, [CR, LF], i)
    case CrLfStrict => Occurs(s, [CR, LF], i)
    case LfOnly => s[i] == LF
  }

  /** The number of CR and LF bytes from i on. */
  function EolRun(s: seq<Byte>, i: nat): (n: nat)
    ensures i <= |s| ==> i + n <= |s| && (forall j | i <= j < i + n :: Hit(Eol, s[j]))
    ensures i + n < |s| ==> !Hit(Eol, s[i + n])
    decreases |s| - i
  {
    if i < |s| && Hit(Eol, s[i]) then 1 + EolRun(s, i + 1) else 0
  }

  lemma {:induction false} EolRunIs(s: seq<Byte>, i: nat, n: nat)
    requires i + n <= |s| && (forall j | i <= j < i + n :: Hit(Eol, s[j]))
    requires i + n < |s| ==> !Hit(Eol, s[i + n])
    ensures EolRun(s, i) == n
    decreases n
  {
    if n > 0 {
      EolRunIs(s, i + 1, n - 1);
    }
  }

  function EolLength(style: Style, s: seq<Byte>, i: nat): (n: nat)
    requires i < |s| && EolAt(style, s, i)
    ensures 0 < n && i + n <= |s|
    ensures style.Any? ==> (forall j | i <= j < i + n :: Hit(Eol, s[j])) && (i + n < |s| ==> !Hit(Eol, s[i + n]))
    ensures !style.Any? ==> s[i..i + n] == [LF] || s[i..i + n] == [CR, LF]
  {
    match style
    case Any => EolRun(s, i)
    case CrLf => if s[i] == LF then 1 else 2
    case CrLfStrict => 2
    case LfOnly => 1
  }

  predicate NoEol(style: Style, s: seq<Byte>, from: nat, to: nat)
    requires to <= |s|
  {
    forall i | from <= i < to :: !EolAt(style, s, i)
  }

  /** Where the first line end from i on starts, or -1. */
  function FindEol(style: Style, s: seq<Byte>, i: nat): (r: int)
    requires i <= |s|
    ensures r < 0 ==> r == -1 && NoEol(style, s, i, |s|)
    ensures r >= 0 ==> i <= r < |s| && EolAt(style, s, r) && NoEol(style, s, i, r)
    decreases |s| - i
  {
    if i == |s| then -1 else if EolAt(style, s, i) then i else FindEol(style, s, i + 1)
  }

  lemma {:induction false} FindEolIs(style: Style, s: seq<Byte>, i: nat, r: nat)
    requires i <= r <= |s| && NoEol(style, s, i, r) && (r < |s| ==> EolAt(style, s, r))
    ensures FindEol(style, s, i) == if r < |s| then r else -1
    decreases r - i
  {
    if i < r {
      FindEolIs(style, s, i + 1, r);
    }
  }

  datatype Line = Line(text: seq<Byte>, end: seq<Byte>)

  /** The complete lines of s. */
  function SplitLines(style: Style, s: seq<Byte>): seq<Line>
    decreases |s|
  {
    var at := FindEol(style, s, 0);
    if at < 0 then
      []
    else
      var n := EolLength(style, s, at);
      [Line(s[..at], s[at..at + n])] + SplitLines(style, s[at + n..])
  }

  /** What follows the last complete line. */
  function Remainder(style: Style, s: seq<Byte>): seq<Byte>
    decreases |s|
  {
    var at := FindEol(style, s, 0);
    if at < 0 then s else Remainder(style, s[at + EolLength(style, s, at)..])
  }

  function Join(lines: seq<Line>): seq<Byte>
  {
    if lines == [] then [] else lines[0].text + lines[0].end + Join(lines[1..])
  }

  /** A line has a line end after its text and none that starts before. */
  predicate IsLine(style: Style, line: Line)
  {
    var s := line.text + line.end;
    && line.end != [] && EolAt(style, s, |line.text|) && EolLength(style, s, |line.text|) == |line.end|
    && NoEol(style, s, 0, |line.text|)
  }

  /** Cutting s after a line end does not change the line ends up to there. */
  lemma EolLocal(style: Style, s: seq<Byte>, at: nat, i: nat)
    requires at < |s| && EolAt(style, s, at) && i <= at
    ensures var t := s[..at + EolLength(style, s, at)];
      EolAt(style, t, i) == EolAt(style, s, i) && (i == at ==> EolLength(style, t, at) == EolLength(style, s, at))
  {
    var n := EolLength(style, s, at);
    var t := s[..at + n];
    if style.Any? && i == at {
      EolRunIs(t, at, n);
    }
    if i + 2 <= |t| {
      assert t[i..i + 2] == s[i..i + 2];
    } else if i + 2 <= |s| {
      assert s[i..i + 2][0] == s[i];
    }
  }

  lemma FirstLine(style: Style, s: seq<Byte>, at: nat)
    requires at < |s| && EolAt(style, s, at) && NoEol(style, s, 0, at)
    ensures var n := EolLength(style, s, at);
      IsLine(style, Line(s[..at], s[at..at + n])) && s == s[..at] + s[at..at + n] + s[at + n..]
  {
    var n := EolLength(style, s, at);
    var t := s[..at] + s[at..at + n];
    assert t == s[..at + n];
    EolLocal(style, s, at, at);
    forall i | 0 <= i < at ensures !EolAt(style, t, i) {
      EolLocal(style, s, at, i);
    }
  }

  lemma JoinNothing()
    ensures Join([]) == []
  {
  }

  lemma JoinMore(line: Line, lines: seq<Line>)
    ensures Join([line] + lines) == line.text + line.end + Join(lines)
  {
    assert ([line] + lines)[1..] == lines;
  }

  lemma SplitFirst(style: Style, s: seq<Byte>)
    ensures var at := FindEol(style, s, 0);
      if at < 0 then
        SplitLines(style, s) == []
      else
        var n := EolLength(style, s, at);
        SplitLines(style, s) == [Line(s[..at], s[at..at + n])] + SplitLines(style, s[at + n..])
  {
    hide Remainder;
    hide Join;
    hide EolLength;
    hide EolAt;
    hide NoEol;
    hide FindEol;
  }

  lemma RemainderFirst(style: Style, s: seq<Byte>)
    ensures var at := FindEol(style, s, 0);
      Remainder(style, s) == if at < 0 then s else Remainder(style, s[at + EolLength(style, s, at)..])
  {
    hide SplitLines;
    hide Join;
    hide EolLength;
    hide EolAt;
    hide NoEol;
    hide FindEol;
  }

  lemma Regroup(a: seq<Byte>, b: seq<Byte>, c: seq<Byte>, d: seq<Byte>)
    ensures (a + b + c) + d == a + b + (c + d)
  {
  }

  /** The lines with their ends and the remainder are the text. */
  lemma {:induction false} SplitJoins(style: Style, s: seq<Byte>)
    ensures Join(SplitLines(style, s)) + Remainder(style, s) == s
    decreases |s|
  {
    hide IsLine;
    hide EolLength;
    hide EolAt;
    hide NoEol;
    hide FindEol;
    hide Join;
    hide SplitLines;
    hide Remainder;
    var at := FindEol(style, s, 0);
    SplitFirst(style, s);
    RemainderFirst(style, s);
    if at < 0 {
      JoinNothing();
    } else {
      var n := EolLength(style, s, at);
      var rest := s[at + n..];
      SplitJoins(style, rest);
      FirstLine(style, s, at);
      JoinMore(Line(s[..at], s[at..at + n]), SplitLines(style, rest));
      Regroup(s[..at], s[at..at + n], Join(SplitLines(style, rest)), Remainder(style, rest));
    }
  }

  /** Each line is one line, and the remainder has no line end. */
  lemma {:induction false} SplitIntoLines(style: Style, s: seq<Byte>)
    ensures forall line | line in SplitLines(style, s) :: IsLine(style, line)
    ensures NoEol(style, Remainder(style, s), 0, |Remainder(style, s)|)
    decreases |s|
  {
    hide IsLine;
    hide EolLength;
    hide EolAt;
    hide NoEol;
    var at := FindEol(style, s, 0);
    if at >= 0 {
      var n := EolLength(style, s, at);
      SplitIntoLines(style, s[at + n..]);
      FirstLine(style, s, at);
    }
  }
}
