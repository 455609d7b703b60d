/**
  Response heads as section 3 of RFC 7230 lays them out, and what the parser
  makes of them.

  A head is a status line, header field lines and an empty line, each line
  ended by CR LF or by a bare LF (section 3.5). A field line that starts with
  SP or HT continues the field before it (obsolete line folding, section
  3.2.4). This module builds the characters of such a head, defines the
  fields the folded lines make and the table they fill, and proves that the
  parser, fed a buffer that starts with the head, finishes exactly at its
  end with that status line, code, table and accounted size.
*/
module Http1Head {
  import opened Http1Text
  import opened Http1Machine

  /** One line of a head: its text and whether it ends with CR LF (or with a
      bare LF). */
  datatype Line = Line(text: string, crlf: bool)

  function Eol(crlf: bool): string
  {
    if crlf then [CR, LF] else [LF]
  }

  function LineText(l: Line): string
  {
    l.text + Eol(l.crlf)
  }

  function Lines(ls: seq<Line>): string
    decreases |ls|
  {
    if |ls| == 0 then [] else LineText(ls[0]) + Lines(ls[1..])
  }

  /** The characters of a head: status line, field lines, empty line. */
  function Head(status: Line, fields: seq<Line>, endCrlf: bool): string
  {
    LineText(status) + Lines(fields) + Eol(endCrlf)
  }

  /** The bytes of s from position i widen to the characters w. */
  predicate At(s: seq<Byte>, i: nat, w: string)
  {
    i + |w| <= |s| && Chars(s[i..i + |w|]) == w
  }

  lemma AtIndex(s: seq<Byte>, i: nat, w: string, k: nat)
    requires At(s, i, w) && k < |w|
    ensures ToChar(s[i + k]) == w[k]
  {
    assert Chars(s[i..i + |w|])[k] == ToChar(s[i..i + |w|][k]);
  }

  lemma AtSplit(s: seq<Byte>, i: nat, a: string, b: string)
    requires At(s, i, a + b)
    ensures At(s, i, a) && At(s, i + |a|, b)
  {
    forall k | 0 <= k < |a|
      ensures Chars(s[i..i + |a|])[k] == a[k]
    {
      AtIndex(s, i, a + b, k);
    }
    forall k | 0 <= k < |b|
      ensures Chars(s[i + |a|..i + |a| + |b|])[k] == b[k]
    {
      AtIndex(s, i, a + b, |a| + k);
    }
  }

  /** A status line the parser accepts. */
  predicate ValidStatusLine(t: string)
  {
    HasNoLineBreak(t) && StartsWith(t, "HTTP/1.") && |t| >= 12 && ParseInt(t[9..12]).Some?
  }

  function StatusCode(t: string): int
    requires ValidStatusLine(t)
  {
    ParseInt(t[9..12]).value
  }

  /** Field lines: none is empty (that would be the end of the head) or
      holds a line break, and the first is not a continuation. */
  predicate ValidFieldLines(ls: seq<Line>)
  {
    ProperLines(ls) && (|ls| > 0 ==> !IsWhite(ls[0].text[0]))
  }

  /** Lines none of which is empty or holds a line break. */
  predicate ProperLines(ls: seq<Line>)
  {
    forall j :: 0 <= j < |ls| ==> |ls[j].text| > 0 && HasNoLineBreak(ls[j].text)
  }

  lemma ProperRest(ls: seq<Line>)
    requires ProperLines(ls) && |ls| > 0
    ensures ProperLines(ls[1..]) && |ls[0].text| > 0 && HasNoLineBreak(ls[0].text)
  {
    forall j | 0 <= j < |ls[1..]|
      ensures |ls[1..][j].text| > 0 && HasNoLineBreak(ls[1..][j].text)
    {
      assert ls[1..][j] == ls[j + 1];
    }
  }

  /** The field texts the lines make: a line starting with SP or HT is
      appended to the text before it, and every HT reads as SP. */
  function Unfold(ls: seq<Line>): (ts: seq<string>)
    ensures |ls| > 0 ==> |ts| > 0
    ensures |ts| <= |ls|
    decreases |ls|
  {
    if |ls| == 0 then []
    else
      var u := Unfold(ls[..|ls| - 1]);
      var l := ls[|ls| - 1].text;
      if |u| > 0 && |l| > 0 && IsWhite(l[0]) then u[..|u| - 1] + [u[|u| - 1] + Detab(l)]
      else u + [Detab(l)]
  }

  /** What one field text adds to the table: nothing without a name, else its
      value at the end of the list of its lower-cased name. */
  function AddField(m: Headers, t: string): Headers
  {
    var f := HeaderField(t);
    if f.None? then m else AddValue(m, Lower(f.value.name), f.value.value)
  }

  /** The size one field text is accounted: 32 plus its name and value. */
  function Accounted(t: string): nat
  {
    var f := HeaderField(t);
    if f.None? then 0 else |f.value.name| + |f.value.value| + 32
  }

  function CollectMap(ts: seq<string>): Headers
    decreases |ts|
  {
    if |ts| == 0 then map[] else AddField(CollectMap(ts[..|ts| - 1]), ts[|ts| - 1])
  }

  function AccountedSize(ts: seq<string>): nat
    decreases |ts|
  {
    if |ts| == 0 then 0 else AccountedSize(ts[..|ts| - 1]) + Accounted(ts[|ts| - 1])
  }

  /** The size bound the theorem assumes: 32 per line on top of its text. */
  function FieldsSize(ls: seq<Line>): nat
    decreases |ls|
  {
    if |ls| == 0 then 0 else |ls[0].text| + 32 + FieldsSize(ls[1..])
  }

  /** The parser after the status line. */
  function AfterStatus(status: Line): Parser
    requires ValidStatusLine(status.text)
  {
    Parser(StatusLineEnd, [], status.text, StatusCode(status.text), map[], 32 + |status.text|, None)
  }

  /** The parser after the field lines ls, at least one: the last field is
      pending, the ones before it are in the table. */
  function Pending(status: Line, ls: seq<Line>): Parser
    requires ValidStatusLine(status.text) && |ls| > 0
  {
    PendingOf(status, Unfold(ls))
  }

  /** The parser with the field texts ts read, the last one pending. */
  function PendingOf(status: Line, ts: seq<string>): Parser
    requires ValidStatusLine(status.text) && |ts| > 0
  {
    var done := ts[..|ts| - 1];
    Parser(HeaderFoundCRLF, ts[|ts| - 1], status.text, StatusCode(status.text), CollectMap(done),
           32 + |status.text| + AccountedSize(done), None)
  }

  /** The finished parser a head yields. */
  function Expected(status: Line, fields: seq<Line>): Parser
    requires ValidStatusLine(status.text)
  {
    var ts := Unfold(fields);
    var m := CollectMap(ts);
    Parser(Finished, [], status.text, StatusCode(status.text), m, 32 + |status.text| + AccountedSize(ts), Some(m))
  }

  // ------------------------------------------------------------------
  // Scanning one line

  /** The text of a status line up to its CR or LF, which is at j: the
      result q names the parser it leaves. */
  lemma {:induction false} ScanStatusText(p: Parser, q: Parser, s: seq<Byte>, i: nat, w: string, j: nat, max: int)
    requires p.state == StatusLine && At(s, i, w) && HasNoLineBreak(w) && j == i + |w| && j < |s|
    requires ToChar(s[j]) == CR || ToChar(s[j]) == LF
    requires max <= 0 || p.size + |p.sb| + |w| + 32 <= max
    requires q == p.(sb := p.sb + w, state := if ToChar(s[j]) == CR then StatusLineFoundCR else StatusLineFoundLF)
    ensures ReadResumeStatusLine(p, s, i, max) == Outcome(q, j + 1, None)
    decreases |w|
  {
    if |w| == 0 {
      assert p.sb + w == p.sb;
    } else {
      var p' := p.(sb := p.sb + [w[0]]);
      assert ToChar(s[i]) == w[0] && w[0] != CR && w[0] != LF && At(s, i + 1, w[1..]) && HasNoLineBreak(w[1..]) by {
        AtIndex(s, i, w, 0);
        assert w == [w[0]] + w[1..];
        AtSplit(s, i, [w[0]], w[1..]);
      }
      AppendFirst(p.sb, w);
      StatusCharStep(p, s, i, max);
      ScanStatusText(p', q, s, i + 1, w[1..], j, max);
    }
  }

  /** The text of a header line up to its CR or LF, which is at j; HT is
      gathered as SP. */
  lemma {:induction false} ScanHeaderText(p: Parser, q: Parser, s: seq<Byte>, i: nat, w: string, j: nat, max: int)
    requires p.state == Header && At(s, i, w) && HasNoLineBreak(w) && j == i + |w| && j < |s|
    requires ToChar(s[j]) == CR || ToChar(s[j]) == LF
    requires max <= 0 || p.size + |p.sb| + |w| + 32 <= max
    requires q == p.(sb := p.sb + Detab(w), state := if ToChar(s[j]) == CR then HeaderFoundCR else HeaderFoundLF)
    ensures ReadResumeHeader(p, s, i, max) == Outcome(q, j + 1, None)
    decreases |w|
  {
    if |w| == 0 {
      assert p.sb + Detab(w) == p.sb;
    } else {
      var c := if w[0] == HT then SP else w[0];
      var p' := p.(sb := p.sb + [c]);
      assert ToChar(s[i]) == w[0] && w[0] != CR && w[0] != LF && At(s, i + 1, w[1..]) && HasNoLineBreak(w[1..]) by {
        AtIndex(s, i, w, 0);
        assert w == [w[0]] + w[1..];
        AtSplit(s, i, [w[0]], w[1..]);
      }
      DetabFirst(p.sb, w);
      HeaderCharStep(p, s, i, max);
      ScanHeaderText(p', q, s, i + 1, w[1..], j, max);
    }
  }

  /** The text of a header line and its line break, from state HEADER. */
  lemma HeaderLineScan(p: Parser, r: Parser, s: seq<Byte>, i: nat, w: string, crlf: bool, e: nat, max: int)
    requires p.state == Header && At(s, i, w + Eol(crlf)) && HasNoLineBreak(w)
    requires max <= 0 || p.size + |p.sb| + |w| + 32 <= max
    requires r == p.(sb := p.sb + Detab(w), state := if crlf then HeaderFoundCR else HeaderFoundLF)
    requires e == i + |w|
    ensures ReadResumeHeader(p, s, i, max) == Outcome(r, e + 1, None)
    ensures e < |s| && (crlf ==> e + 1 < |s| && ToChar(s[e + 1]) == LF)
  {
    AtSplit(s, i, w, Eol(crlf));
    AtIndex(s, e, Eol(crlf), 0);
    if crlf {
      AtIndex(s, e, Eol(crlf), 1);
    }
    ScanHeaderText(p, r, s, i, w, e, max);
  }

  /** The rest of a header line and its end, from state HEADER: the text
      is gathered, HT as SP, and the parser waits at HEADER_FOUND_CR_LF. */
  lemma HeaderLineRest(p: Parser, q: Parser, s: seq<Byte>, i: nat, w: string, crlf: bool, j: nat, max: int)
    requires p.state == Header && At(s, i, w + Eol(crlf)) && HasNoLineBreak(w)
    requires max <= 0 || p.size + |p.sb| + |w| + 32 <= max
    requires q == p.(state := HeaderFoundCRLF, sb := p.sb + Detab(w)) && j == i + |w| + |Eol(crlf)|
    ensures Feed(p, s, i, max) == Feed(q, s, j, max)
  {
    var e := i + |w|;
    var r := p.(sb := p.sb + Detab(w), state := if crlf then HeaderFoundCR else HeaderFoundLF);
    HeaderLineScan(p, r, s, i, w, crlf, e, max);
    HeaderTextTo(p, r, s, i, e + 1, max);
    LineEndStep(r, q, s, e + 1, crlf, j, max);
    var o1 := Feed(p, s, i, max);
    var o2 := Feed(r, s, e + 1, max);
    var o3 := Feed(q, s, j, max);
    assert o1 == o2 && o2 == o3;
  }

  /** A line's first character and the rest. */
  lemma LineStart(s: seq<Byte>, pos: nat, l: Line)
    requires |l.text| > 0 && At(s, pos, LineText(l))
    ensures ToChar(s[pos]) == l.text[0] && At(s, pos + 1, l.text[1..] + Eol(l.crlf))
    ensures Detab(l.text) == Detab([l.text[0]]) + Detab(l.text[1..])
    ensures pos + 1 + |l.text[1..]| + |Eol(l.crlf)| == pos + |LineText(l)|
  {
    var t := l.text;
    assert LineText(l) == [t[0]] + (t[1..] + Eol(l.crlf));
    AtSplit(s, pos, [t[0]], t[1..] + Eol(l.crlf));
    AtIndex(s, pos, [t[0]], 0);
    assert t == [t[0]] + t[1..];
    DetabAppend([t[0]], t[1..]);
  }

  /** The first field line, read from STATUS_LINE_END. */
  lemma FirstLine(p: Parser, q: Parser, s: seq<Byte>, pos: nat, l: Line, j: nat, max: int)
    requires p.state == StatusLineEnd && p.sb == []
    requires |l.text| > 0 && HasNoLineBreak(l.text) && !IsWhite(l.text[0]) && At(s, pos, LineText(l))
    requires max <= 0 || p.size + |l.text| + 32 <= max
    requires q == p.(state := HeaderFoundCRLF, sb := Detab(l.text)) && j == pos + |LineText(l)|
    ensures Feed(p, s, pos, max) == Feed(q, s, j, max)
  {
    var t := l.text;
    var p2 := p.(sb := [t[0]], state := Header);
    assert && ToChar(s[pos]) == t[0] && At(s, pos + 1, t[1..] + Eol(l.crlf))
      && j == pos + 1 + |t[1..]| + |Eol(l.crlf)| && q == p2.(state := HeaderFoundCRLF, sb := p2.sb + Detab(t[1..]))
    by {
      LineStart(s, pos, l);
      DetabFirst([], t);
    }
    CharAfterStatus(p, p2, s, pos, max);
    HeaderLineRest(p2, q, s, pos + 1, t[1..], l.crlf, j, max);
    var o1 := Feed(p, s, pos, max);
    var o2 := Feed(p2, s, pos + 1, max);
    var o3 := Feed(q, s, j, max);
    assert o1 == o2 && o2 == o3;
  }

  /** A continuation line, read from HEADER_FOUND_CR_LF: folded into the
      pending text with one SP. */
  lemma FoldLine(p: Parser, q: Parser, s: seq<Byte>, pos: nat, l: Line, j: nat, max: int)
    requires p.state == HeaderFoundCRLF
    requires |l.text| > 0 && HasNoLineBreak(l.text) && IsWhite(l.text[0]) && At(s, pos, LineText(l))
    requires max <= 0 || p.size + |p.sb| + |l.text| + 32 <= max
    requires q == p.(sb := p.sb + Detab(l.text)) && j == pos + |LineText(l)|
    ensures Feed(p, s, pos, max) == Feed(q, s, j, max)
  {
    var t := l.text;
    var p2 := p.(sb := p.sb + [SP], state := Header);
    assert && ToChar(s[pos]) == t[0] && At(s, pos + 1, t[1..] + Eol(l.crlf))
      && j == pos + 1 + |t[1..]| + |Eol(l.crlf)| && q == p2.(state := HeaderFoundCRLF, sb := p2.sb + Detab(t[1..]))
    by {
      LineStart(s, pos, l);
      DetabFirst(p.sb, t);
    }
    WhiteAfterLine(p, p2, s, pos, max);
    HeaderLineRest(p2, q, s, pos + 1, t[1..], l.crlf, j, max);
    var o1 := Feed(p, s, pos, max);
    var o2 := Feed(p2, s, pos + 1, max);
    var o3 := Feed(q, s, j, max);
    assert o1 == o2 && o2 == o3;
  }

  /** A line that starts a new field, read from HEADER_FOUND_CR_LF: the
      pending text goes into the table first. */
  lemma NewLine(p: Parser, q: Parser, s: seq<Byte>, pos: nat, l: Line, j: nat, max: int)
    requires p.state == HeaderFoundCRLF && |p.sb| > 0
    requires |l.text| > 0 && HasNoLineBreak(l.text) && !IsWhite(l.text[0]) && At(s, pos, LineText(l))
    requires max <= 0 || p.size + |p.sb| + 32 + |l.text| + 32 <= max
    requires q == p.(sb := Detab(l.text), size := p.size + Accounted(p.sb), privateMap := AddField(p.privateMap, p.sb))
    requires j == pos + |LineText(l)|
    ensures Feed(p, s, pos, max) == Feed(q, s, j, max)
  {
    var t := l.text;
    var p1 := Flushed(p);
    var p2 := p1.(sb := [t[0]], state := Header);
    FlushWithin(p, max);
    assert && ToChar(s[pos]) == t[0] && At(s, pos + 1, t[1..] + Eol(l.crlf))
      && j == pos + 1 + |t[1..]| + |Eol(l.crlf)| && q == p2.(state := HeaderFoundCRLF, sb := p2.sb + Detab(t[1..]))
    by {
      LineStart(s, pos, l);
      DetabFirst([], t);
    }
    CharAfterLine(p, p1, p2, s, pos, max);
    HeaderLineRest(p2, q, s, pos + 1, t[1..], l.crlf, j, max);
    var o1 := Feed(p, s, pos, max);
    var o2 := Feed(p2, s, pos + 1, max);
    var o3 := Feed(q, s, j, max);
    assert o1 == o2 && o2 == o3;
  }

  /** The parser once its pending field is in the table. */
  function Flushed(p: Parser): Parser
  {
    p.(sb := [], size := p.size + Accounted(p.sb), privateMap := AddField(p.privateMap, p.sb))
  }

  /** Flushing a pending field within the budget. */
  lemma FlushWithin(p: Parser, max: int)
    requires |p.sb| > 0
    requires max <= 0 || p.size + |p.sb| + 32 <= max
    ensures Flush(p, max) == (Flushed(p), None)
    ensures Accounted(p.sb) <= |p.sb| + 32
  {
    AddWithin(p.(sb := []), p.sb, max);
    AccountedBound(p.sb);
  }

  // ------------------------------------------------------------------
  // The status line

  /** The status line: the parser gathers it, checks it and takes its code,
      and waits at STATUS_LINE_END with the line accounted. */
  lemma StatusPhase(status: Line, a: Parser, s: seq<Byte>, j: nat, max: int)
    requires ValidStatusLine(status.text) && At(s, 0, LineText(status))
    requires max <= 0 || |status.text| + 32 <= max
    requires a == AfterStatus(status) && j == |LineText(status)|
    ensures Feed(Fresh, s, 0, max) == Feed(a, s, j, max)
  {
    var i: nat := |status.text| + 1;
    var p1 := Fresh.(state := StatusLine);
    var q := Fresh.(state := if status.crlf then StatusLineFoundCR else StatusLineFoundLF, sb := status.text);
    StatusScan(status, p1, q, s, max);
    StatusLineEnds(status, q, a, s, i, j, max);
  }

  /** The text of the status line and its line end. */
  lemma StatusScan(status: Line, p1: Parser, q: Parser, s: seq<Byte>, max: int)
    requires HasNoLineBreak(status.text) && At(s, 0, LineText(status))
    requires max <= 0 || |status.text| + 32 <= max
    requires p1 == Fresh.(state := StatusLine)
    requires q == Fresh.(state := if status.crlf then StatusLineFoundCR else StatusLineFoundLF, sb := status.text)
    ensures Feed(Fresh, s, 0, max) == Feed(q, s, |status.text| + 1, max)
    ensures status.crlf ==> |status.text| + 1 < |s| && ToChar(s[|status.text| + 1]) == LF
  {
    assert |s| > 0 by {
      AtSplit(s, 0, status.text, Eol(status.crlf));
    }
    InitialStep(Fresh, p1, s, 0, max);
    var t := status.text;
    var e := |t|;
    assert ReadResumeStatusLine(p1, s, 0, max) == Outcome(q, e + 1, None) by {
      AtSplit(s, 0, t, Eol(status.crlf));
      AtIndex(s, e, Eol(status.crlf), 0);
      assert p1.sb + t == t;
      ScanStatusText(p1, q, s, 0, t, e, max);
    }
    assert status.crlf ==> e + 1 < |s| && ToChar(s[e + 1]) == LF by {
      AtSplit(s, 0, t, Eol(status.crlf));
      if status.crlf {
        AtIndex(s, e, Eol(status.crlf), 1);
      }
    }
    StatusTextTo(p1, q, s, 0, e + 1, max);
    var o1 := Feed(Fresh, s, 0, max);
    var o2 := Feed(p1, s, 0, max);
    var o3 := Feed(q, s, e + 1, max);
    assert o1 == o2 && o2 == o3;
  }

  /** The end of an accepted status line. */
  lemma StatusLineEnds(status: Line, q: Parser, a: Parser, s: seq<Byte>, i: nat, j: nat, max: int)
    requires ValidStatusLine(status.text) && i <= |s| && j == |LineText(status)| && i == |status.text| + 1
    requires q == Fresh.(state := if status.crlf then StatusLineFoundCR else StatusLineFoundLF, sb := status.text)
    requires status.crlf ==> i < |s| && ToChar(s[i]) == LF
    requires a == AfterStatus(status)
    requires Feed(Fresh, s, 0, max) == Feed(q, s, i, max)
    ensures Feed(Fresh, s, 0, max) == Feed(a, s, j, max)
  {
    assert ReadStatusLineFeed(q, s, i) == Outcome(a, j, None);
    StatusEndTo(q, a, s, i, j, max);
  }

  // ------------------------------------------------------------------
  // Field lines

  /** |name| + |value| of a field never exceed the text it came from. */
  lemma AccountedBound(t: string)
    ensures Accounted(t) <= |t| + 32
  {
    var idx := IndexOf(t, ':');
    if idx != -1 {
      assert |t[..idx]| + |t[idx + 1..]| < |t|;
    }
  }

  /** Within the limit, addHeaderFromString adds the field to the table and
      its size to the account. */
  lemma AddWithin(p: Parser, t: string, max: int)
    requires max <= 0 || p.size + |t| + 32 <= max
    ensures AddHeaderFromString(p, t, max) ==
      (p.(size := p.size + Accounted(t), privateMap := AddField(p.privateMap, t)), None)
  {
    AccountedBound(t);
  }

  lemma UnfoldStep(ls: seq<Line>, n: nat)
    requires 0 < n < |ls|
    ensures var u := Unfold(ls[..n]); var l := ls[n].text;
      Unfold(ls[..n + 1]) ==
        if |l| > 0 && IsWhite(l[0]) then u[..|u| - 1] + [u[|u| - 1] + Detab(l)] else u + [Detab(l)]
  {
    assert ls[..n + 1][..n] == ls[..n];
  }

  /** Every field text is non-empty. */
  lemma {:induction false} UnfoldNonEmpty(ls: seq<Line>)
    requires forall j :: 0 <= j < |ls| ==> |ls[j].text| > 0
    ensures forall k :: 0 <= k < |Unfold(ls)| ==> |Unfold(ls)[k]| > 0
    decreases |ls|
  {
    if |ls| > 0 {
      UnfoldNonEmpty(ls[..|ls| - 1]);
    }
  }

  // ------------------------------------------------------------------
  // The parser state after each field line

  /** The budget left for the lines still to come. */
  predicate Within(p: Parser, rest: seq<Line>, max: int)
  {
    max <= 0 || p.size + |p.sb| + 32 + FieldsSize(rest) <= max
  }

  lemma PendingFirst(status: Line, fields: seq<Line>)
    requires ValidStatusLine(status.text) && |fields| > 0
    ensures Pending(status, fields[..1]) ==
      AfterStatus(status).(state := HeaderFoundCRLF, sb := Detab(fields[0].text))
  {
    assert fields[..1][..0] == [];
    assert Unfold(fields[..1]) == [Detab(fields[0].text)];
  }

  /** Extending the pending text leaves the table as it is. */
  lemma PendingOfFold(status: Line, u: seq<string>, u': seq<string>, x: string)
    requires ValidStatusLine(status.text) && |u| > 0
    requires u' == u[..|u| - 1] + [u[|u| - 1] + x]
    ensures PendingOf(status, u') == PendingOf(status, u).(sb := u[|u| - 1] + x)
  {
    assert u'[..|u'| - 1] == u[..|u| - 1];
  }

  /** A continuation line extends the pending field. */
  lemma PendingFold(status: Line, fields: seq<Line>, n: nat)
    requires ValidStatusLine(status.text) && 0 < n < |fields|
    requires |fields[n].text| > 0 && IsWhite(fields[n].text[0])
    ensures var p := Pending(status, fields[..n]);
      Pending(status, fields[..n + 1]) == p.(sb := p.sb + Detab(fields[n].text))
  {
    UnfoldStep(fields, n);
    PendingOfFold(status, Unfold(fields[..n]), Unfold(fields[..n + 1]), Detab(fields[n].text));
  }

  /** Starting a new pending text puts the old one into the table. */
  lemma PendingOfNew(status: Line, u: seq<string>, u': seq<string>, x: string)
    requires ValidStatusLine(status.text) && |u| > 0
    requires u' == u + [x]
    ensures var p := PendingOf(status, u);
      PendingOf(status, u') == p.(sb := x, size := p.size + Accounted(p.sb), privateMap := AddField(p.privateMap, p.sb))
  {
    assert u'[..|u'| - 1] == u;
    assert u[..|u| - 1] + [u[|u| - 1]] == u;
  }

  /** A new field line puts the pending field into the table. */
  lemma PendingNew(status: Line, fields: seq<Line>, n: nat)
    requires ValidStatusLine(status.text) && 0 < n < |fields|
    requires |fields[n].text| > 0 && !IsWhite(fields[n].text[0])
    ensures var p := Pending(status, fields[..n]);
      Pending(status, fields[..n + 1]) ==
        p.(sb := Detab(fields[n].text), size := p.size + Accounted(p.sb), privateMap := AddField(p.privateMap, p.sb))
  {
    UnfoldStep(fields, n);
    PendingOfNew(status, Unfold(fields[..n]), Unfold(fields[..n + 1]), Detab(fields[n].text));
  }

  /** The empty line puts the last pending field into the table. */
  lemma PendingEnd(status: Line, fields: seq<Line>)
    requires ValidStatusLine(status.text) && |fields| > 0
    ensures Finish(Flushed(Pending(status, fields))) == Expected(status, fields)
  {
    var u := Unfold(fields);
    assert u[..|u| - 1] + [u[|u| - 1]] == u;
  }

  lemma FieldsSizeStep(fields: seq<Line>, n: nat)
    requires n < |fields|
    ensures FieldsSize(fields[n..]) == |fields[n].text| + 32 + FieldsSize(fields[n + 1..])
    ensures Lines(fields[n..]) == LineText(fields[n]) + Lines(fields[n + 1..])
  {
    assert fields[n..][1..] == fields[n + 1..];
  }

  /** The pending field is never empty. */
  lemma PendingNonEmpty(status: Line, fields: seq<Line>, n: nat)
    requires ValidStatusLine(status.text) && ValidFieldLines(fields) && 0 < n <= |fields|
    ensures |Pending(status, fields[..n]).sb| > 0
  {
    UnfoldNonEmpty(fields[..n]);
  }

  /** What the parser makes of one field line at HEADER_FOUND_CR_LF: a
      continuation extends the pending field, any other line puts the
      pending field into the table and becomes the pending one. */
  function Absorb(p: Parser, l: Line): Parser
  {
    if |l.text| > 0 && IsWhite(l.text[0]) then p.(sb := p.sb + Detab(l.text))
    else p.(sb := Detab(l.text), size := p.size + Accounted(p.sb), privateMap := AddField(p.privateMap, p.sb))
  }

  function AbsorbAll(p: Parser, ls: seq<Line>): Parser
    decreases |ls|
  {
    if |ls| == 0 then p else AbsorbAll(Absorb(p, ls[0]), ls[1..])
  }

  /** One field line at HEADER_FOUND_CR_LF, on the machine. */
  lemma AbsorbOne(p: Parser, q: Parser, l: Line, rest: seq<Line>, s: seq<Byte>, pos: nat, next: nat, max: int)
    requires p.state == HeaderFoundCRLF && |p.sb| > 0
    requires |l.text| > 0 && HasNoLineBreak(l.text)
    requires At(s, pos, LineText(l) + Lines(rest))
    requires max <= 0 || p.size + |p.sb| + 32 + |l.text| + 32 + FieldsSize(rest) <= max
    requires q == Absorb(p, l) && next == pos + |LineText(l)|
    ensures Feed(p, s, pos, max) == Feed(q, s, next, max)
    ensures q.state == HeaderFoundCRLF && |q.sb| > 0
    ensures Within(q, rest, max) && At(s, next, Lines(rest))
  {
    AtSplit(s, pos, LineText(l), Lines(rest));
    DetabNoLineBreak(l.text);
    if IsWhite(l.text[0]) {
      FoldLine(p, q, s, pos, l, next, max);
    } else {
      AccountedBound(p.sb);
      NewLine(p, q, s, pos, l, next, max);
    }
  }

  lemma LinesStep(ls: seq<Line>)
    requires |ls| > 0
    ensures Lines(ls) == LineText(ls[0]) + Lines(ls[1..])
    ensures FieldsSize(ls) == |ls[0].text| + 32 + FieldsSize(ls[1..])
    ensures |Lines(ls)| == |LineText(ls[0])| + |Lines(ls[1..])|
  {
  }

  lemma AbsorbAllStep(p: Parser, ls: seq<Line>)
    requires |ls| > 0
    ensures AbsorbAll(p, ls) == AbsorbAll(Absorb(p, ls[0]), ls[1..])
  {
  }

  /** The field lines after the first, on the machine: parse reads them all
      and ends where they end, at HEADER_FOUND_CR_LF, within the budget; r
      names the parser it leaves. */
  lemma {:induction false} AbsorbLines(p: Parser, r: Parser, ls: seq<Line>, s: seq<Byte>, pos: nat, e: nat, max: int)
    requires p.state == HeaderFoundCRLF && |p.sb| > 0
    requires ProperLines(ls)
    requires At(s, pos, Lines(ls)) && Within(p, ls, max)
    requires r == AbsorbAll(p, ls) && e == pos + |Lines(ls)|
    ensures Feed(p, s, pos, max) == Feed(r, s, e, max)
    ensures r.state == HeaderFoundCRLF && |r.sb| > 0 && Within(r, [], max)
    decreases |ls|
  {
    if |ls| == 0 {
      assert Lines(ls) == [];
    } else {
      var l := ls[0];
      var rest := ls[1..];
      var q := Absorb(p, l);
      var next := pos + |LineText(l)|;
      LinesStep(ls);
      ProperRest(ls);
      AbsorbOne(p, q, l, rest, s, pos, next, max);
      AbsorbAllStep(p, ls);
      AbsorbLines(q, r, rest, s, next, e, max);
      var o1 := Feed(p, s, pos, max);
      var o2 := Feed(q, s, next, max);
      var o3 := Feed(r, s, e, max);
      assert o1 == o2 && o2 == o3;
    }
  }

  /** The machine's line-by-line fold agrees with the declarative reading:
      from the first line on, it yields the pending field and table of all
      the field lines. */
  lemma {:induction false} AbsorbPending(status: Line, fields: seq<Line>, n: nat)
    requires ValidStatusLine(status.text) && ValidFieldLines(fields) && 0 < n <= |fields|
    ensures AbsorbAll(Pending(status, fields[..n]), fields[n..]) == Pending(status, fields)
    decreases |fields| - n
  {
    if n == |fields| {
      assert fields[..n] == fields;
      assert fields[n..] == [];
    } else {
      assert |fields[n].text| > 0;
      PendingStep(status, fields, n);
      AbsorbAllStep(Pending(status, fields[..n]), fields[n..]);
      assert fields[n..][1..] == fields[n + 1..];
      AbsorbPending(status, fields, n + 1);
    }
  }

  /** One field line of the fold. */
  lemma PendingStep(status: Line, fields: seq<Line>, n: nat)
    requires ValidStatusLine(status.text) && 0 < n < |fields| && |fields[n].text| > 0
    ensures Absorb(Pending(status, fields[..n]), fields[n]) == Pending(status, fields[..n + 1])
  {
    if IsWhite(fields[n].text[0]) {
      PendingFold(status, fields, n);
    } else {
      PendingNew(status, fields, n);
    }
  }

  // ------------------------------------------------------------------
  // The whole head

  /** The empty line of a head with no field lines. */
  lemma EndNoFields(status: Line, s: seq<Byte>, i: nat, endCrlf: bool, max: int)
    requires ValidStatusLine(status.text) && At(s, i, Eol(endCrlf))
    ensures Feed(AfterStatus(status), s, i, max) == Outcome(Expected(status, []), i + |Eol(endCrlf)|, None)
  {
    AtIndex(s, i, Eol(endCrlf), 0);
    if endCrlf {
      AtIndex(s, i, Eol(endCrlf), 1);
    }
    EmptyLineAfterStatus(AfterStatus(status), s, i, endCrlf, max);
    assert Finish(AfterStatus(status)) == Expected(status, []);
  }

  /** Field lines are the first line and the rest. */
  lemma FieldsSplit(fields: seq<Line>, s: seq<Byte>, i: nat)
    requires ValidFieldLines(fields) && |fields| > 0 && At(s, i, Lines(fields))
    ensures At(s, i, LineText(fields[0])) && At(s, i + |LineText(fields[0])|, Lines(fields[1..]))
    ensures |Lines(fields)| == |LineText(fields[0])| + |Lines(fields[1..])|
    ensures FieldsSize(fields) == |fields[0].text| + 32 + FieldsSize(fields[1..])
    ensures |Detab(fields[0].text)| == |fields[0].text|
    ensures ProperLines(fields[1..])
  {
    LinesStep(fields);
    AtSplit(s, i, LineText(fields[0]), Lines(fields[1..]));
    DetabNoLineBreak(fields[0].text);
    ProperRest(fields);
  }

  /** The field lines, from STATUS_LINE_END: the first line starts the
      pending field and the others are absorbed one by one. */
  lemma FieldsPhase(a: Parser, p1: Parser, r: Parser, fields: seq<Line>, s: seq<Byte>, i: nat, e: nat, max: int)
    requires a.state == StatusLineEnd && a.sb == [] && ValidFieldLines(fields) && |fields| > 0
    requires At(s, i, Lines(fields)) && (max <= 0 || a.size + FieldsSize(fields) <= max)
    requires p1 == a.(state := HeaderFoundCRLF, sb := Detab(fields[0].text))
    requires r == AbsorbAll(p1, fields[1..]) && e == i + |Lines(fields)|
    ensures Feed(a, s, i, max) == Feed(r, s, e, max)
    ensures r.state == HeaderFoundCRLF && |r.sb| > 0 && Within(r, [], max)
  {
    var j1 := i + |LineText(fields[0])|;
    FieldsFirst(a, p1, fields, s, i, j1, e, max);
    FieldsRest(a, p1, r, fields, s, i, j1, e, max);
    var o1 := Feed(a, s, i, max);
    var o2 := Feed(p1, s, j1, max);
    var o3 := Feed(r, s, e, max);
    assert o1 == o2 && o2 == o3;
  }

  /** The first field line of FieldsPhase. */
  lemma FieldsFirst(a: Parser, p1: Parser, fields: seq<Line>, s: seq<Byte>, i: nat, j1: nat, e: nat, max: int)
    requires a.state == StatusLineEnd && a.sb == [] && ValidFieldLines(fields) && |fields| > 0
    requires At(s, i, Lines(fields)) && (max <= 0 || a.size + FieldsSize(fields) <= max)
    requires p1 == a.(state := HeaderFoundCRLF, sb := Detab(fields[0].text)) && e == i + |Lines(fields)|
    requires j1 == i + |LineText(fields[0])|
    ensures Feed(a, s, i, max) == Feed(p1, s, j1, max)
  {
    FirstFieldReady(a, p1, fields, s, i, e, max);
    FirstLine(a, p1, s, i, fields[0], j1, max);
  }

  /** The other field lines of FieldsPhase. */
  lemma FieldsRest(a: Parser, p1: Parser, r: Parser, fields: seq<Line>, s: seq<Byte>, i: nat, j1: nat, e: nat, max: int)
    requires a.sb == [] && ValidFieldLines(fields) && |fields| > 0
    requires At(s, i, Lines(fields)) && (max <= 0 || a.size + FieldsSize(fields) <= max)
    requires p1 == a.(state := HeaderFoundCRLF, sb := Detab(fields[0].text))
    requires r == AbsorbAll(p1, fields[1..]) && e == i + |Lines(fields)|
    requires j1 == i + |LineText(fields[0])|
    ensures Feed(p1, s, j1, max) == Feed(r, s, e, max)
    ensures r.state == HeaderFoundCRLF && |r.sb| > 0 && Within(r, [], max)
  {
    FirstFieldReady(a, p1, fields, s, i, e, max);
    AbsorbLines(p1, r, fields[1..], s, j1, e, max);
  }

  /** What reading the first field line and then the others needs. */
  lemma FirstFieldReady(a: Parser, p1: Parser, fields: seq<Line>, s: seq<Byte>, i: nat, e: nat, max: int)
    requires a.sb == [] && ValidFieldLines(fields) && |fields| > 0
    requires At(s, i, Lines(fields)) && (max <= 0 || a.size + FieldsSize(fields) <= max)
    requires p1 == a.(state := HeaderFoundCRLF, sb := Detab(fields[0].text)) && e == i + |Lines(fields)|
    ensures var l := fields[0];
      && |l.text| > 0 && HasNoLineBreak(l.text) && !IsWhite(l.text[0]) && At(s, i, LineText(l))
      && (max <= 0 || a.size + |l.text| + 32 <= max)
      && |p1.sb| > 0 && ProperLines(fields[1..])
      && At(s, i + |LineText(l)|, Lines(fields[1..])) && Within(p1, fields[1..], max)
      && e == i + |LineText(l)| + |Lines(fields[1..])|
  {
    FieldsSplit(fields, s, i);
  }

  /** The empty line after the field lines: the pending field goes into the
      table and the head is finished. */
  lemma EndAfterFields(p: Parser, s: seq<Byte>, i: nat, endCrlf: bool, max: int)
    requires p.state == HeaderFoundCRLF && |p.sb| > 0
    requires At(s, i, Eol(endCrlf)) && Within(p, [], max)
    ensures Feed(p, s, i, max) == Outcome(Finish(Flushed(p)), i + |Eol(endCrlf)|, None)
  {
    var p1 := Flushed(p);
    FlushWithin(p, max);
    AtIndex(s, i, Eol(endCrlf), 0);
    if endCrlf {
      AtIndex(s, i, Eol(endCrlf), 1);
    }
    EmptyLineAfterLine(p, p1, s, i, endCrlf, max);
  }

  /** The machine's fold over the field lines ends with the declarative
      reading's pending field. */
  lemma AbsorbFields(status: Line, fields: seq<Line>)
    requires ValidStatusLine(status.text) && ValidFieldLines(fields) && |fields| > 0
    ensures AbsorbAll(AfterStatus(status).(state := HeaderFoundCRLF, sb := Detab(fields[0].text)), fields[1..])
      == Pending(status, fields)
  {
    PendingFirst(status, fields);
    AbsorbPending(status, fields, 1);
  }

  /** The field lines and the empty line, from STATUS_LINE_END, on the
      machine: the first line starts the pending field, the others are
      absorbed, and the empty line puts the last one into the table. */
  lemma FieldsToEnd(a: Parser, p1: Parser, r: Parser, fields: seq<Line>, endCrlf: bool, s: seq<Byte>, i: nat, n: nat, max: int)
    requires a.state == StatusLineEnd && a.sb == [] && ValidFieldLines(fields) && |fields| > 0
    requires At(s, i, Lines(fields) + Eol(endCrlf)) && (max <= 0 || a.size + FieldsSize(fields) <= max)
    requires p1 == a.(state := HeaderFoundCRLF, sb := Detab(fields[0].text)) && r == AbsorbAll(p1, fields[1..])
    requires n == i + |Lines(fields)| + |Eol(endCrlf)|
    ensures Feed(a, s, i, max) == Outcome(Finish(Flushed(r)), n, None)
  {
    var e := i + |Lines(fields)|;
    assert At(s, i, Lines(fields)) && At(s, e, Eol(endCrlf)) by {
      AtSplit(s, i, Lines(fields), Eol(endCrlf));
    }
    FieldsPhase(a, p1, r, fields, s, i, e, max);
    EndAfterFields(r, s, e, endCrlf, max);
    var o1 := Feed(a, s, i, max);
    var o2 := Feed(r, s, e, max);
    assert o1 == o2 && o2 == Outcome(Finish(Flushed(r)), n, None);
  }

  /** What the machine ends with is the declarative reading of the head. */
  lemma FinishedFields(status: Line, fields: seq<Line>, p1: Parser, r: Parser)
    requires ValidStatusLine(status.text) && ValidFieldLines(fields) && |fields| > 0
    requires p1 == AfterStatus(status).(state := HeaderFoundCRLF, sb := Detab(fields[0].text))
    requires r == AbsorbAll(p1, fields[1..])
    ensures Finish(Flushed(r)) == Expected(status, fields)
  {
    AbsorbFields(status, fields);
    PendingEnd(status, fields);
  }

  /** The field lines and the empty line, from STATUS_LINE_END. */
  lemma HeadWithFields(status: Line, fields: seq<Line>, endCrlf: bool, a: Parser, s: seq<Byte>, i: nat, n: nat, max: int)
    requires ValidStatusLine(status.text) && ValidFieldLines(fields) && |fields| > 0
    requires a == AfterStatus(status) && At(s, i, Lines(fields) + Eol(endCrlf))
    requires max <= 0 || 32 + |status.text| + FieldsSize(fields) <= max
    requires n == i + |Lines(fields)| + |Eol(endCrlf)|
    ensures Feed(a, s, i, max) == Outcome(Expected(status, fields), n, None)
  {
    var p1 := a.(state := HeaderFoundCRLF, sb := Detab(fields[0].text));
    var r := AbsorbAll(p1, fields[1..]);
    FieldsToEnd(a, p1, r, fields, endCrlf, s, i, n, max);
    FinishedFields(status, fields, p1, r);
  }

  /** A head is its status line, then its field lines and empty line. */
  lemma HeadSplit(status: Line, fields: seq<Line>, endCrlf: bool, s: seq<Byte>)
    requires At(s, 0, Head(status, fields, endCrlf))
    ensures At(s, 0, LineText(status)) && At(s, |LineText(status)|, Lines(fields) + Eol(endCrlf))
    ensures |Head(status, fields, endCrlf)| == |LineText(status)| + |Lines(fields)| + |Eol(endCrlf)|
  {
    assert Head(status, fields, endCrlf) == LineText(status) + (Lines(fields) + Eol(endCrlf));
    AtSplit(s, 0, LineText(status), Lines(fields) + Eol(endCrlf));
  }

  /** The main property: fed a buffer that starts with a well-formed head
      within the size limit, parse finishes exactly at the end of the head,
      without error, with the status line, its code, every field in the
      table under its lower-cased name in arrival order, and the size
      accounted. */
  lemma ParseHead(status: Line, fields: seq<Line>, endCrlf: bool, s: seq<Byte>, max: int)
    requires ValidStatusLine(status.text) && ValidFieldLines(fields)
    requires At(s, 0, Head(status, fields, endCrlf))
    requires max <= 0 || 32 + |status.text| + FieldsSize(fields) <= max
    ensures Feed(Fresh, s, 0, max) == Outcome(Expected(status, fields), |Head(status, fields, endCrlf)|, None)
  {
    var j0 := |LineText(status)|;
    var n := |Head(status, fields, endCrlf)|;
    HeadSplit(status, fields, endCrlf, s);
    var a := AfterStatus(status);
    StatusPhase(status, a, s, j0, max);
    FieldsAndEnd(status, fields, endCrlf, a, s, j0, n, max);
    var o1 := Feed(Fresh, s, 0, max);
    var o2 := Feed(a, s, j0, max);
    assert o1 == o2 && o2 == Outcome(Expected(status, fields), n, None);
  }

  /** Everything after the status line, from STATUS_LINE_END. */
  lemma FieldsAndEnd(status: Line, fields: seq<Line>, endCrlf: bool, a: Parser, s: seq<Byte>, i: nat, n: nat, max: int)
    requires ValidStatusLine(status.text) && ValidFieldLines(fields)
    requires a == AfterStatus(status) && At(s, i, Lines(fields) + Eol(endCrlf))
    requires max <= 0 || 32 + |status.text| + FieldsSize(fields) <= max
    requires n == i + |Lines(fields)| + |Eol(endCrlf)|
    ensures Feed(a, s, i, max) == Outcome(Expected(status, fields), n, None)
  {
    if |fields| == 0 {
      assert Lines(fields) == [];
      EndNoFields(status, s, i, endCrlf, max);
    } else {
      HeadWithFields(status, fields, endCrlf, a, s, i, n, max);
    }
  }
}
