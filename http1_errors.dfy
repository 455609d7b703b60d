/**
  The heads the parser refuses: a status line it does not accept, a CR not
  followed by LF at each of the three places where the parser insists on
  one, and a status line longer than the size limit allows.
*/
module Http1Errors {
  import opened Http1Text
  import opened Http1Machine
  import opened Http1Head

  /** The text of a status line up to its CR or LF, from a fresh parser. */
  lemma StatusTextScan(t: string, q: Parser, s: seq<Byte>, max: int)
    requires HasNoLineBreak(t) && At(s, 0, t) && |t| < |s|
    requires ToChar(s[|t|]) == CR || ToChar(s[|t|]) == LF
    requires max <= 0 || |t| + 32 <= max
    requires q == Fresh.(state := if ToChar(s[|t|]) == CR then StatusLineFoundCR else StatusLineFoundLF, sb := t)
    ensures Feed(Fresh, s, 0, max) == Feed(q, s, |t| + 1, max)
  {
    var p1 := Fresh.(state := StatusLine);
    InitialStep(Fresh, p1, s, 0, max);
    assert ReadResumeStatusLine(p1, s, 0, max) == Outcome(q, |t| + 1, None) by {
      assert p1.sb + t == t;
      ScanStatusText(p1, q, s, 0, t, |t|, max);
    }
    StatusTextTo(p1, q, s, 0, |t| + 1, max);
    var o1 := Feed(Fresh, s, 0, max);
    var o2 := Feed(p1, s, 0, max);
    var o3 := Feed(q, s, |t| + 1, max);
    assert o1 == o2 && o2 == o3;
  }

  /** The parser a refused status line leaves: the line is recorded and
      accounted, the gathered text cleared. */
  function Refused(status: Line): Parser
  {
    Fresh.(state := if status.crlf then StatusLineFoundCR else StatusLineFoundLF,
           statusLine := status.text, size := 32 + |status.text|)
  }

  /** The error readStatusLineFeed raises for a status line it does not
      accept. */
  function StatusError(t: string): ParseError
  {
    if !StartsWith(t, "HTTP/1.") || |t| < 12 then ProtocolError else NumberFormatError
  }

  /** A whole status line that does not start with "HTTP/1.", is shorter
      than 12 characters or has no integer in characters 9 to 11 ends parse
      right after the line, with ProtocolException for the first two and
      NumberFormatException for the last. */
  lemma StatusLineRefused(status: Line, s: seq<Byte>, max: int)
    requires HasNoLineBreak(status.text) && !ValidStatusLine(status.text)
    requires At(s, 0, LineText(status)) && (max <= 0 || |status.text| + 32 <= max)
    ensures Feed(Fresh, s, 0, max) == Outcome(Refused(status), |LineText(status)|, Some(StatusError(status.text)))
  {
    var t := status.text;
    var e := |t|;
    var q := Fresh.(state := if status.crlf then StatusLineFoundCR else StatusLineFoundLF, sb := t);
    var j := |LineText(status)|;
    assert At(s, 0, t) && e < |s| && ToChar(s[e]) == (if status.crlf then CR else LF)
      && (status.crlf ==> e + 1 < |s| && ToChar(s[e + 1]) == LF) by {
      AtSplit(s, 0, t, Eol(status.crlf));
      AtIndex(s, e, Eol(status.crlf), 0);
      if status.crlf {
        AtIndex(s, e, Eol(status.crlf), 1);
      }
    }
    StatusTextScan(t, q, s, max);
    assert ReadStatusLineFeed(q, s, e + 1) == Outcome(Refused(status), j, Some(StatusError(t)));
    StepError(q, s, e + 1, max);
  }

  /** A CR ending the status line must be followed by LF: otherwise parse
      stops with ProtocolException right after the offending character. */
  lemma StatusCRWithoutLF(t: string, s: seq<Byte>, max: int)
    requires HasNoLineBreak(t) && At(s, 0, t) && |t| + 1 < |s| && ToChar(s[|t|]) == CR && ToChar(s[|t| + 1]) != LF
    requires max <= 0 || |t| + 32 <= max
    ensures Feed(Fresh, s, 0, max) == Outcome(Fresh.(state := StatusLineFoundCR, sb := t), |t| + 2, Some(ProtocolError))
  {
    var q := Fresh.(state := StatusLineFoundCR, sb := t);
    StatusTextScan(t, q, s, max);
    assert ReadStatusLineFeed(q, s, |t| + 1).err == Some(ProtocolError);
    StepError(q, s, |t| + 1, max);
  }

  /** A CR right after an accepted status line must be followed by LF. */
  lemma EmptyLineCRWithoutLF(status: Line, s: seq<Byte>, max: int)
    requires ValidStatusLine(status.text) && At(s, 0, LineText(status))
    requires |LineText(status)| + 1 < |s| && ToChar(s[|LineText(status)|]) == CR && ToChar(s[|LineText(status)| + 1]) != LF
    requires max <= 0 || |status.text| + 32 <= max
    ensures Feed(Fresh, s, 0, max) ==
      Outcome(AfterStatus(status).(state := StatusLineEndCR), |LineText(status)| + 2, Some(ProtocolError))
  {
    var j := |LineText(status)|;
    var a := AfterStatus(status);
    var q := a.(state := StatusLineEndCR);
    StatusPhase(status, a, s, j, max);
    CRWithoutLFAfterStatus(a, q, s, j, max);
  }

  /** CR then a character other than LF right after the status line. */
  lemma CRWithoutLFAfterStatus(a: Parser, q: Parser, s: seq<Byte>, j: nat, max: int)
    requires a.state == StatusLineEnd && j + 1 < |s| && ToChar(s[j]) == CR && ToChar(s[j + 1]) != LF
    requires q == a.(state := StatusLineEndCR)
    ensures Feed(a, s, j, max) == Outcome(q, j + 2, Some(ProtocolError))
  {
    CRAfterStatus(a, q, s, j, max);
    StepError(q, s, j + 1, max);
  }

  /** The field lines read, the parser r waits at HEADER_FOUND_CR_LF with
      the last field pending. */
  lemma ThroughFields(status: Line, fields: seq<Line>, r: Parser, s: seq<Byte>, n: nat, max: int)
    requires ValidStatusLine(status.text) && ValidFieldLines(fields) && |fields| > 0
    requires At(s, 0, LineText(status) + Lines(fields)) && n == |LineText(status)| + |Lines(fields)|
    requires max <= 0 || 32 + |status.text| + FieldsSize(fields) <= max
    requires r == Pending(status, fields)
    ensures Feed(Fresh, s, 0, max) == Feed(r, s, n, max)
    ensures r.state == HeaderFoundCRLF && Within(r, [], max) && |r.sb| > 0
  {
    var j := |LineText(status)|;
    var a := AfterStatus(status);
    var p1 := a.(state := HeaderFoundCRLF, sb := Detab(fields[0].text));
    assert At(s, 0, LineText(status)) && At(s, j, Lines(fields)) by {
      AtSplit(s, 0, LineText(status), Lines(fields));
    }
    assert AbsorbAll(p1, fields[1..]) == r by {
      AbsorbFields(status, fields);
    }
    StatusPhase(status, a, s, j, max);
    FieldsPhase(a, p1, r, fields, s, j, n, max);
    var o1 := Feed(Fresh, s, 0, max);
    var o2 := Feed(a, s, j, max);
    var o3 := Feed(r, s, n, max);
    assert o1 == o2 && o2 == o3;
  }

  /** CR then a character other than LF after a field line's end. */
  lemma CRWithoutLFAfterLine(r: Parser, q: Parser, s: seq<Byte>, n: nat, max: int)
    requires r.state == HeaderFoundCRLF && |r.sb| > 0 && Within(r, [], max)
    requires n + 1 < |s| && ToChar(s[n]) == CR && ToChar(s[n + 1]) != LF
    requires q == Flushed(r).(state := HeaderFoundCRLFCR)
    ensures Feed(r, s, n, max) == Outcome(q, n + 2, Some(ProtocolError))
  {
    FlushWithin(r, max);
    CRAfterLine(r, Flushed(r), q, s, n, max);
    StepError(q, s, n + 1, max);
  }

  /** The CR of the empty line after field lines must be followed by LF:
      otherwise parse stops with ProtocolException, the last field already
      in the table. */
  lemma EndCRWithoutLF(status: Line, fields: seq<Line>, s: seq<Byte>, n: nat, max: int)
    requires ValidStatusLine(status.text) && ValidFieldLines(fields) && |fields| > 0
    requires n == |LineText(status)| + |Lines(fields)|
    requires At(s, 0, LineText(status) + Lines(fields)) && n + 1 < |s| && ToChar(s[n]) == CR && ToChar(s[n + 1]) != LF
    requires max <= 0 || 32 + |status.text| + FieldsSize(fields) <= max
    ensures Feed(Fresh, s, 0, max) ==
      Outcome(Flushed(Pending(status, fields)).(state := HeaderFoundCRLFCR), n + 2, Some(ProtocolError))
  {
    var r := Pending(status, fields);
    var q := Flushed(r).(state := HeaderFoundCRLFCR);
    ThroughFields(status, fields, r, s, n, max);
    CRWithoutLFAfterLine(r, q, s, n, max);
  }

  /** Status-line characters past the limit: the character that brings the
      size, the gathered text and 32 above a positive limit raises
      ProtocolException. k - i characters remain to that one. */
  lemma {:induction false} ScanPastLimit(p: Parser, s: seq<Byte>, i: nat, k: nat, max: int)
    requires p.state == StatusLine && i < k <= |s|
    requires forall j :: i <= j < k ==> ToChar(s[j]) != CR && ToChar(s[j]) != LF
    requires max > 0 && p.size + |p.sb| + (k - i) + 32 > max
    requires k == i + 1 || p.size + |p.sb| + (k - i) + 31 == max
    ensures ReadResumeStatusLine(p, s, i, max) == Outcome(p.(sb := p.sb + Chars(s[i..k])), k, Some(ProtocolError))
    decreases k - i
  {
    var p' := p.(sb := p.sb + [ToChar(s[i])]);
    CharsFirst(p.sb, s, i, k);
    if k > i + 1 {
      ScanPastLimit(p', s, i + 1, k, max);
    }
  }

  lemma CharsFirst(a: string, s: seq<Byte>, i: nat, k: nat)
    requires i < k <= |s|
    ensures a + Chars(s[i..k]) == a + [ToChar(s[i])] + Chars(s[i + 1..k])
  {
    assert Chars(s[i..k]) == [ToChar(s[i])] + Chars(s[i + 1..k]);
  }

  /** The number of status-line characters a fresh parser takes under a
      positive limit: the one that passes it raises the error. */
  function LimitReach(max: int): (k: nat)
    requires max > 0
    ensures k >= 1 && k + 32 > max && (k == 1 || k + 31 == max)
  {
    if max >= 32 then max - 31 else 1
  }

  /** A status line longer than a positive limit allows: after LimitReach(max)
      characters without CR or LF, parse stops with ProtocolException. */
  lemma StatusLinePastLimit(s: seq<Byte>, max: int)
    requires max > 0 && LimitReach(max) <= |s|
    requires forall j :: 0 <= j < LimitReach(max) ==> ToChar(s[j]) != CR && ToChar(s[j]) != LF
    ensures var k := LimitReach(max);
      Feed(Fresh, s, 0, max) == Outcome(Fresh.(state := StatusLine, sb := Chars(s[..k])), k, Some(ProtocolError))
  {
    var k := LimitReach(max);
    var p1 := Fresh.(state := StatusLine);
    InitialStep(Fresh, p1, s, 0, max);
    ScanPastLimit(p1, s, 0, k, max);
    assert p1.sb + Chars(s[0..k]) == Chars(s[..k]);
    StepError(p1, s, 0, max);
  }
}
