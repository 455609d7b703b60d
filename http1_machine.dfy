/**
  The HTTP/1.1 response-head parser as a resumable state machine, on values.

  A parser is a state, the text gathered so far (the StringBuilder), the
  status line and code, the headers gathered so far, the accounted size and,
  once finished, the headers handed out. Every private step of the parser is
  a function here from the parser and the input bytes at a position to an
  Outcome: the parser and position afterwards and the error raised, if any.
  After an error the parser holds what the Java object holds when the
  exception leaves it.
*/
module Http1Machine {
  import opened Http1Text

  datatype State =
    | Initial
    | StatusLine
    | StatusLineFoundCR
    | StatusLineFoundLF
    | StatusLineEnd
    | StatusLineEndCR
    | StatusLineEndLF
    | Header
    | HeaderFoundCR
    | HeaderFoundLF
    | HeaderFoundCRLF
    | HeaderFoundCRLFCR
    | Finished

  /** The two exceptions a step can raise: ProtocolException, and the
      NumberFormatException of Integer.parseInt on the status code. */
  datatype ParseError = ProtocolError | NumberFormatError

  /** Header name (lower case) to its values in arrival order. */
  type Headers = map<string, seq<string>>

  /** A header line split into its name and value. */
  datatype Field = Field(name: string, value: string)

  datatype Parser = Parser(state: State, sb: string, statusLine: string, responseCode: int,
                           privateMap: Headers, size: int, headers: Option<Headers>)

  datatype Outcome = Outcome(p: Parser, pos: nat, err: Option<ParseError>)

  /** The default of jdk.http.maxHeaderSize: 384 K. */
  const DefaultMaxHeaderSize: int := 384 * 1024

  /** A freshly constructed parser. */
  const Fresh: Parser := Parser(Initial, [], [], 0, map[], 0, None)

  /** checkMaxHeaderSize: with sz characters pending, the size plus the
      pending text plus 32 must not exceed a positive limit; a limit of zero
      or below turns the check off. */
  function CheckMaxHeaderSize(size: int, sz: int, max: int): (e: Option<ParseError>)
    ensures e.None? <==> max <= 0 || size + sz + 32 <= max
    ensures e.Some? ==> e.value == ProtocolError
  {
    if max > 0 && size + sz + 32 > max then Some(ProtocolError) else None
  }

  /** newSize: the size after a header of the given name and value lengths,
      or the error when it passes a positive limit. */
  function NewSize(size: int, name: int, value: int, max: int): (r: Option<int>)
    ensures r.None? <==> max > 0 && size + name + value + 32 > max
    ensures r.Some? ==> r.value == size + name + value + 32
  {
    var s := size + name + value + 32;
    if max > 0 && s > max then None else Some(s)
  }

  /** The states that move on without reading: each has just seen a LF. */
  function Rank(st: State): nat
  {
    if st == Initial || st == StatusLineFoundLF || st == StatusLineEndLF || st == HeaderFoundLF then 1 else 0
  }

  /** canContinueParsing. */
  predicate CanContinue(p: Parser, s: seq<Byte>, i: nat)
  {
    match p.state
    case Finished => false
    case StatusLineFoundLF => true
    case StatusLineEndLF => true
    case HeaderFoundLF => true
    case _ => i < |s|
  }

  /** readResumeStatusLine: gathers the characters up to the first CR or LF,
      checking the size after each. */
  function ReadResumeStatusLine(p: Parser, s: seq<Byte>, i: nat, max: int): (o: Outcome)
    requires i <= |s|
    ensures i <= o.pos <= |s|
    decreases |s| - i
  {
    if i == |s| then Outcome(p, i, None)
    else
      var c := ToChar(s[i]);
      if c == CR then Outcome(p.(state := StatusLineFoundCR), i + 1, None)
      else if c == LF then Outcome(p.(state := StatusLineFoundLF), i + 1, None)
      else
        var p' := p.(sb := p.sb + [c]);
        var e := CheckMaxHeaderSize(p.size, |p'.sb|, max);
        if e.Some? then Outcome(p', i + 1, e)
        else ReadResumeStatusLine(p', s, i + 1, max)
  }

  /** readStatusLineFeed: the status line ends with LF (read now after a CR,
      or already seen). It is accounted, and it must start with "HTTP/1." and
      have at least 12 characters; its code is characters 9 to 11. */
  function ReadStatusLineFeed(p: Parser, s: seq<Byte>, i: nat): (o: Outcome)
    requires i <= |s| && (p.state == StatusLineFoundLF || i < |s|)
    ensures o.pos == if p.state == StatusLineFoundLF then i else i + 1
  {
    var c := if p.state == StatusLineFoundLF then LF else ToChar(s[i]);
    var pos := if p.state == StatusLineFoundLF then i else i + 1;
    if c != LF then Outcome(p, pos, Some(ProtocolError))
    else
      var line := p.sb;
      var p' := p.(statusLine := line, size := p.size + 32 + |line|, sb := []);
      if !StartsWith(line, "HTTP/1.") || |line| < 12 then Outcome(p', pos, Some(ProtocolError))
      else
        match ParseInt(line[9..12])
        case None => Outcome(p', pos, Some(NumberFormatError))
        case Some(code) => Outcome(p'.(responseCode := code, state := StatusLineEnd), pos, None)
  }

  /** maybeStartHeaders: after the status line, a CR or LF may begin the
      empty line; any other character begins the first header. */
  function MaybeStartHeaders(p: Parser, s: seq<Byte>, i: nat, max: int): (o: Outcome)
    requires i < |s|
    ensures o.pos == i + 1
  {
    var c := ToChar(s[i]);
    if c == CR then Outcome(p.(state := StatusLineEndCR), i + 1, None)
    else if c == LF then Outcome(p.(state := StatusLineEndLF), i + 1, None)
    else
      var p' := p.(sb := p.sb + [c]);
      var e := CheckMaxHeaderSize(p.size, |p'.sb|, max);
      if e.Some? then Outcome(p', i + 1, e)
      else Outcome(p'.(state := Header), i + 1, None)
  }

  /** The headers are complete: they are handed out. */
  function Finish(p: Parser): Parser
  {
    p.(state := Finished, headers := Some(p.privateMap))
  }

  /** maybeEndHeaders: an empty line right after the status line ends the
      head, with no headers; its CR must be followed by LF. */
  function MaybeEndHeaders(p: Parser, s: seq<Byte>, i: nat): (o: Outcome)
    requires i <= |s| && (p.state == StatusLineEndLF || i < |s|)
    ensures o.pos == if p.state == StatusLineEndLF then i else i + 1
  {
    var c := if p.state == StatusLineEndLF then LF else ToChar(s[i]);
    var pos := if p.state == StatusLineEndLF then i else i + 1;
    if c == LF then Outcome(Finish(p), pos, None)
    else Outcome(p, pos, Some(ProtocolError))
  }

  /** readResumeHeader: gathers header text up to the first CR or LF, an HT
      gathered as SP, checking the size after each character. */
  function ReadResumeHeader(p: Parser, s: seq<Byte>, i: nat, max: int): (o: Outcome)
    requires i <= |s|
    ensures i <= o.pos <= |s|
    decreases |s| - i
  {
    if i == |s| then Outcome(p, i, None)
    else
      var c := ToChar(s[i]);
      if c == CR then Outcome(p.(state := HeaderFoundCR), i + 1, None)
      else if c == LF then Outcome(p.(state := HeaderFoundLF), i + 1, None)
      else
        var p' := p.(sb := p.sb + [if c == HT then SP else c]);
        var e := CheckMaxHeaderSize(p.size, |p'.sb|, max);
        if e.Some? then Outcome(p', i + 1, e)
        else ReadResumeHeader(p', s, i + 1, max)
  }

  /** The name and value of a header line: split at the first ':', both
      trimmed. None when there is no ':' or the name is empty. */
  function HeaderField(text: string): Option<Field>
  {
    var idx := IndexOf(text, ':');
    if idx == -1 then None
    else
      var name := Trim(text[..idx]);
      if |name| == 0 then None else Some(Field(name, Trim(text[idx + 1..])))
  }

  /** computeIfAbsent(key, new list).add(value). */
  function AddValue(m: Headers, key: string, value: string): Headers
  {
    m[key := (if key in m then m[key] else []) + [value]]
  }

  /** addHeaderFromString: a line without a name is dropped; otherwise its
      size is accounted and its value added under the lower-cased name. */
  function AddHeaderFromString(p: Parser, text: string, max: int): (r: (Parser, Option<ParseError>))
    ensures r.0.state == p.state && r.0.sb == p.sb && r.0.size >= p.size
    ensures r.1.None? || r == (p, Some(ProtocolError))
    ensures HeaderField(text).None? ==> r == (p, None)
    ensures HeaderField(text).Some? ==>
      var f := HeaderField(text).value;
      var key := Lower(f.name);
      && (r.1.Some? <==> max > 0 && p.size + |f.name| + |f.value| + 32 > max)
      && (r.1.None? ==>
            && r.0.size == p.size + |f.name| + |f.value| + 32
            && r.0.privateMap.Keys == p.privateMap.Keys + {key}
            && |r.0.privateMap[key]| > 0 && r.0.privateMap[key][|r.0.privateMap[key]| - 1] == f.value
            && (forall k :: k in p.privateMap && k != key ==> r.0.privateMap[k] == p.privateMap[k]))
  {
    var f := HeaderField(text);
    if f.None? then (p, None)
    else
      var size := NewSize(p.size, |f.value.name|, |f.value.value|, max);
      if size.None? then (p, Some(ProtocolError))
      else (p.(size := size.value, privateMap := AddValue(p.privateMap, Lower(f.value.name), f.value.value)), None)
  }

  /** The pending header text is complete: it is added, if there is any. */
  function Flush(p: Parser, max: int): (r: (Parser, Option<ParseError>))
    ensures r.0.state == p.state && r.0.size >= p.size
    ensures r.1.None? || r.1 == Some(ProtocolError)
    ensures |p.sb| == 0 ==> r == (p, None)
    ensures |p.sb| > 0 ==> r.0.sb == []
  {
    if |p.sb| > 0 then AddHeaderFromString(p.(sb := []), p.sb, max) else (p, None)
  }

  /** resumeOrLF: after the CR or LF ending a header line. A LF (read now
      after a CR, or already seen) ends the line; after a CR, SP or HT
      continues the text with one SP, and any other character starts new text,
      the gathered text being dropped. */
  function ResumeOrLF(p: Parser, s: seq<Byte>, i: nat, max: int): (o: Outcome)
    requires i <= |s| && (p.state == HeaderFoundLF || i < |s|)
    ensures o.pos == if p.state == HeaderFoundLF then i else i + 1
  {
    var c := if p.state == HeaderFoundLF then LF else ToChar(s[i]);
    var pos := if p.state == HeaderFoundLF then i else i + 1;
    if c == LF then Outcome(p.(state := HeaderFoundCRLF), pos, None)
    else if c == SP || c == HT then
      var p' := p.(sb := p.sb + [SP]);
      var e := CheckMaxHeaderSize(p.size, |p'.sb|, max);
      if e.Some? then Outcome(p', pos, e) else Outcome(p'.(state := Header), pos, None)
    else
      var p' := p.(sb := [c]);
      var e := CheckMaxHeaderSize(p.size, 1, max);
      if e.Some? then Outcome(p', pos, e) else Outcome(p'.(state := Header), pos, None)
  }

  /** resumeOrSecondCR: at the start of a line after a header line. CR or LF
      completes the pending header and begins the end of the head (LF ends
      it); SP or HT folds the line into the pending header with one SP; any
      other character completes the pending header and starts the next. */
  function ResumeOrSecondCR(p: Parser, s: seq<Byte>, i: nat, max: int): (o: Outcome)
    requires i < |s|
    ensures o.pos == i + 1
  {
    var c := ToChar(s[i]);
    if c == CR || c == LF then
      var f := Flush(p, max);
      if f.1.Some? then Outcome(f.0, i + 1, f.1)
      else if c == CR then Outcome(f.0.(state := HeaderFoundCRLFCR), i + 1, None)
      else Outcome(Finish(f.0), i + 1, None)
    else if c == SP || c == HT then
      var p' := p.(sb := p.sb + [SP]);
      var e := CheckMaxHeaderSize(p.size, |p'.sb|, max);
      if e.Some? then Outcome(p', i + 1, e) else Outcome(p'.(state := Header), i + 1, None)
    else
      var f := Flush(p, max);
      if f.1.Some? then Outcome(f.0, i + 1, f.1)
      else
        var p' := f.0.(sb := f.0.sb + [c]);
        var e := CheckMaxHeaderSize(p'.size, |p'.sb|, max);
        if e.Some? then Outcome(p', i + 1, e) else Outcome(p'.(state := Header), i + 1, None)
  }

  /** resumeOrEndHeaders: the CR of the empty line must be followed by LF. */
  function ResumeOrEndHeaders(p: Parser, s: seq<Byte>, i: nat): (o: Outcome)
    requires i < |s|
    ensures o.pos == i + 1
  {
    if ToChar(s[i]) == LF then Outcome(Finish(p), i + 1, None)
    else Outcome(p, i + 1, Some(ProtocolError))
  }

  /** One turn of the loop of parse: the step of the current state. */
  function Dispatch(p: Parser, s: seq<Byte>, i: nat, max: int): (o: Outcome)
    requires i <= |s| && CanContinue(p, s, i)
    ensures i <= o.pos <= |s|
    ensures o.err.None? && o.pos == i ==> Rank(o.p.state) < Rank(p.state)
  {
    match p.state
    case Initial => Outcome(p.(state := StatusLine), i, None)
    case StatusLine => ReadResumeStatusLine(p, s, i, max)
    case StatusLineFoundCR => ReadStatusLineFeed(p, s, i)
    case StatusLineFoundLF => ReadStatusLineFeed(p, s, i)
    case StatusLineEnd => MaybeStartHeaders(p, s, i, max)
    case StatusLineEndCR => MaybeEndHeaders(p, s, i)
    case StatusLineEndLF => MaybeEndHeaders(p, s, i)
    case Header => ReadResumeHeader(p, s, i, max)
    case HeaderFoundCR => ResumeOrLF(p, s, i, max)
    case HeaderFoundLF => ResumeOrLF(p, s, i, max)
    case HeaderFoundCRLF => ResumeOrSecondCR(p, s, i, max)
    case HeaderFoundCRLFCR => ResumeOrEndHeaders(p, s, i)
  }

  /** parse: the steps run while the parser can continue, from position i of
      the buffer s, stopping at the first error. */
  function Feed(p: Parser, s: seq<Byte>, i: nat, max: int): (o: Outcome)
    requires i <= |s|
    ensures i <= o.pos <= |s|
    decreases |s| - i, Rank(p.state), 1
  {
    if !CanContinue(p, s, i) then Outcome(p, i, None) else Turn(p, s, i, max)
  }

  /** One turn of the loop of parse, and the loop from where it leaves off. */
  function Turn(p: Parser, s: seq<Byte>, i: nat, max: int): (o: Outcome)
    requires i <= |s| && CanContinue(p, s, i)
    ensures i <= o.pos <= |s|
    decreases |s| - i, Rank(p.state), 0
  {
    var o := Dispatch(p, s, i, max);
    if o.err.Some? then o else Feed(o.p, s, o.pos, max)
  }

  // ------------------------------------------------------------------
  // What the loop of parse guarantees

  /** One step never lowers the accounted size and never finishes with an
      error. */
  lemma DispatchFacts(p: Parser, s: seq<Byte>, i: nat, max: int)
    requires i <= |s| && CanContinue(p, s, i)
    ensures Dispatch(p, s, i, max).p.size >= p.size
    ensures Dispatch(p, s, i, max).err.Some? ==> Dispatch(p, s, i, max).p.state != Finished
  {
    match p.state
    case StatusLine => ScanStatusLineFacts(p, s, i, max);
    case Header => ScanHeaderFacts(p, s, i, max);
    case HeaderFoundCR => {}
    case HeaderFoundLF => {}
    case HeaderFoundCRLF => SecondCRFacts(p, s, i, max);
    case _ => {}
  }

  lemma SecondCRFacts(p: Parser, s: seq<Byte>, i: nat, max: int)
    requires i < |s| && p.state == HeaderFoundCRLF
    ensures ResumeOrSecondCR(p, s, i, max).p.size >= p.size
    ensures ResumeOrSecondCR(p, s, i, max).err.Some? ==> ResumeOrSecondCR(p, s, i, max).p.state == HeaderFoundCRLF
  {
    var c := ToChar(s[i]);
    var f := Flush(p, max);
    if c != CR && c != LF && c != SP && c != HT && f.1.None? {
      var p' := f.0.(sb := f.0.sb + [c]);
      assert p'.state == HeaderFoundCRLF;
    }
  }

  lemma {:induction false} ScanStatusLineFacts(p: Parser, s: seq<Byte>, i: nat, max: int)
    requires i <= |s|
    ensures ReadResumeStatusLine(p, s, i, max).p.size == p.size
    ensures ReadResumeStatusLine(p, s, i, max).p.state in {p.state, StatusLineFoundCR, StatusLineFoundLF}
    decreases |s| - i
  {
    if i < |s| {
      var c := ToChar(s[i]);
      if c != CR && c != LF {
        ScanStatusLineFacts(p.(sb := p.sb + [c]), s, i + 1, max);
      }
    }
  }

  lemma {:induction false} ScanHeaderFacts(p: Parser, s: seq<Byte>, i: nat, max: int)
    requires i <= |s|
    ensures ReadResumeHeader(p, s, i, max).p.size == p.size
    ensures ReadResumeHeader(p, s, i, max).p.state in {p.state, HeaderFoundCR, HeaderFoundLF}
    decreases |s| - i
  {
    if i < |s| {
      var c := ToChar(s[i]);
      if c != CR && c != LF {
        ScanHeaderFacts(p.(sb := p.sb + [if c == HT then SP else c]), s, i + 1, max);
      }
    }
  }

  /** parse: it stops without an error only when finished or when the
      buffer is used up, so every buffer is consumed unless the call finishes
      the head; an error never leaves the parser finished; the accounted size
      never goes down; a finished parser reads nothing. */
  lemma {:induction false} FeedFacts(p: Parser, s: seq<Byte>, i: nat, max: int)
    requires i <= |s|
    ensures var o := Feed(p, s, i, max);
      && i <= o.pos <= |s|
      && (o.err.None? ==> o.p.state == Finished || o.pos == |s|)
      && (o.err.Some? ==> o.p.state != Finished)
      && o.p.size >= p.size
      && (p.state == Finished ==> o == Outcome(p, i, None))
    decreases |s| - i, Rank(p.state)
  {
    if CanContinue(p, s, i) {
      var o := Dispatch(p, s, i, max);
      DispatchFacts(p, s, i, max);
      if o.err.None? {
        FeedFacts(o.p, s, o.pos, max);
      }
    }
  }

  /** What the size limit guarantees of a parser that has raised nothing:
      under a positive limit the accounted size is within it, and so is the
      size with the pending text and 32 when there is pending text. */
  predicate WithinLimit(p: Parser, max: int)
  {
    max <= 0 || (p.size <= max && (|p.sb| > 0 ==> p.size + |p.sb| + 32 <= max))
  }

  lemma {:induction false} ScanStatusLineWithin(p: Parser, s: seq<Byte>, i: nat, max: int)
    requires i <= |s| && WithinLimit(p, max)
    ensures var o := ReadResumeStatusLine(p, s, i, max); o.err.None? ==> WithinLimit(o.p, max)
    decreases |s| - i
  {
    if i < |s| {
      var c := ToChar(s[i]);
      var p' := p.(sb := p.sb + [c]);
      if c != CR && c != LF && CheckMaxHeaderSize(p.size, |p'.sb|, max).None? {
        ScanStatusLineWithin(p', s, i + 1, max);
      }
    }
  }

  lemma {:induction false} ScanHeaderWithin(p: Parser, s: seq<Byte>, i: nat, max: int)
    requires i <= |s| && WithinLimit(p, max)
    ensures var o := ReadResumeHeader(p, s, i, max); o.err.None? ==> WithinLimit(o.p, max)
    decreases |s| - i
  {
    if i < |s| {
      var c := ToChar(s[i]);
      var p' := p.(sb := p.sb + [if c == HT then SP else c]);
      if c != CR && c != LF && CheckMaxHeaderSize(p.size, |p'.sb|, max).None? {
        ScanHeaderWithin(p', s, i + 1, max);
      }
    }
  }

  /** Adding the pending field keeps the limit: newSize checks it. */
  lemma FlushWithinLimit(p: Parser, max: int)
    requires WithinLimit(p, max)
    ensures Flush(p, max).1.None? ==> WithinLimit(Flush(p, max).0, max) && Flush(p, max).0.sb == []
  {
  }

  /** A step that raises nothing keeps the limit. */
  lemma DispatchWithin(p: Parser, s: seq<Byte>, i: nat, max: int)
    requires i <= |s| && CanContinue(p, s, i) && WithinLimit(p, max)
    ensures var o := Dispatch(p, s, i, max); o.err.None? ==> WithinLimit(o.p, max)
  {
    match p.state
    case StatusLine => ScanStatusLineWithin(p, s, i, max);
    case Header => ScanHeaderWithin(p, s, i, max);
    case HeaderFoundCR => LineEndWithin(p, s, i, max);
    case HeaderFoundLF => LineEndWithin(p, s, i, max);
    case HeaderFoundCRLF => SecondCRWithin(p, s, i, max);
    case _ => {}
  }

  lemma LineEndWithin(p: Parser, s: seq<Byte>, i: nat, max: int)
    requires i <= |s| && (p.state == HeaderFoundLF || i < |s|) && WithinLimit(p, max)
    ensures var o := ResumeOrLF(p, s, i, max); o.err.None? ==> WithinLimit(o.p, max)
  {
  }

  lemma SecondCRWithin(p: Parser, s: seq<Byte>, i: nat, max: int)
    requires i < |s| && WithinLimit(p, max)
    ensures var o := ResumeOrSecondCR(p, s, i, max); o.err.None? ==> WithinLimit(o.p, max)
  {
    FlushWithinLimit(p, max);
  }

  /** The size limit: parse that raises nothing leaves the accounted size
      within a positive limit. */
  lemma {:induction false} FeedWithin(p: Parser, s: seq<Byte>, i: nat, max: int)
    requires i <= |s| && WithinLimit(p, max)
    ensures var o := Feed(p, s, i, max); o.err.None? ==> WithinLimit(o.p, max)
    decreases |s| - i, Rank(p.state)
  {
    if CanContinue(p, s, i) {
      var o := Dispatch(p, s, i, max);
      DispatchWithin(p, s, i, max);
      if o.err.None? {
        FeedWithin(o.p, s, o.pos, max);
      }
    }
  }

  /** From a fresh parser: a parse without error never accounts more than a
      positive limit. */
  lemma FreshWithin(s: seq<Byte>, max: int)
    ensures var o := Feed(Fresh, s, 0, max); o.err.None? && max > 0 ==> o.p.size <= max
  {
    FeedWithin(Fresh, s, 0, max);
  }

  // ------------------------------------------------------------------
  // Single steps of parse on a known character. Each names the parser it
  // leads to, q, so that steps chain without rebuilding it.

  /** One character of a status line, within the limit. */
  lemma StatusCharStep(p: Parser, s: seq<Byte>, i: nat, max: int)
    requires i < |s| && ToChar(s[i]) != CR && ToChar(s[i]) != LF
    requires max <= 0 || p.size + |p.sb| + 1 + 32 <= max
    ensures ReadResumeStatusLine(p, s, i, max) == ReadResumeStatusLine(p.(sb := p.sb + [ToChar(s[i])]), s, i + 1, max)
  {
  }

  /** One character of a header line, within the limit: HT is gathered as
      SP. */
  lemma HeaderCharStep(p: Parser, s: seq<Byte>, i: nat, max: int)
    requires i < |s| && ToChar(s[i]) != CR && ToChar(s[i]) != LF
    requires max <= 0 || p.size + |p.sb| + 1 + 32 <= max
    ensures var c := ToChar(s[i]);
      ReadResumeHeader(p, s, i, max) == ReadResumeHeader(p.(sb := p.sb + [if c == HT then SP else c]), s, i + 1, max)
  {
  }

  /** One step that raises nothing. */
  lemma FeedStep(p: Parser, q: Parser, s: seq<Byte>, i: nat, j: nat, max: int)
    requires i <= |s| && CanContinue(p, s, i) && Dispatch(p, s, i, max) == Outcome(q, j, None)
    ensures Feed(p, s, i, max) == Feed(q, s, j, max)
  {
  }

  /** A character other than CR and LF after the status line starts the
      first field. */
  lemma CharAfterStatus(p: Parser, q: Parser, s: seq<Byte>, i: nat, max: int)
    requires p.state == StatusLineEnd && i < |s| && ToChar(s[i]) != CR && ToChar(s[i]) != LF
    requires max <= 0 || p.size + |p.sb| + 1 + 32 <= max
    requires q == p.(sb := p.sb + [ToChar(s[i])], state := Header)
    ensures Feed(p, s, i, max) == Feed(q, s, i + 1, max)
  {
    assert Dispatch(p, s, i, max) == Outcome(q, i + 1, None);
  }

  /** The first turn of parse only leaves the initial state. */
  lemma InitialStep(p: Parser, q: Parser, s: seq<Byte>, i: nat, max: int)
    requires p.state == Initial && i < |s| && q == p.(state := StatusLine)
    ensures Feed(p, s, i, max) == Feed(q, s, i, max)
  {
    assert Dispatch(p, s, i, max) == Outcome(q, i, None);
  }

  /** Status line text up to the end of its line. */
  lemma StatusTextTo(p: Parser, q: Parser, s: seq<Byte>, i: nat, j: nat, max: int)
    requires p.state == StatusLine && i < |s| && ReadResumeStatusLine(p, s, i, max) == Outcome(q, j, None)
    ensures Feed(p, s, i, max) == Feed(q, s, j, max)
  {
    assert Dispatch(p, s, i, max) == Outcome(q, j, None);
  }

  /** The end of the status line. */
  lemma StatusEndTo(p: Parser, q: Parser, s: seq<Byte>, i: nat, j: nat, max: int)
    requires p.state == StatusLineFoundCR || p.state == StatusLineFoundLF
    requires i <= |s| && (p.state == StatusLineFoundLF || i < |s|)
    requires ReadStatusLineFeed(p, s, i) == Outcome(q, j, None)
    ensures Feed(p, s, i, max) == Feed(q, s, j, max)
  {
    assert Dispatch(p, s, i, max) == Outcome(q, j, None);
  }

  /** Header text up to the end of its line. */
  lemma HeaderTextTo(p: Parser, q: Parser, s: seq<Byte>, i: nat, j: nat, max: int)
    requires p.state == Header && i < |s| && ReadResumeHeader(p, s, i, max) == Outcome(q, j, None)
    ensures Feed(p, s, i, max) == Feed(q, s, j, max)
  {
    assert Dispatch(p, s, i, max) == Outcome(q, j, None);
  }

  /** LF after the CR that ends a header line. */
  lemma FeedAfterCR(p: Parser, q: Parser, s: seq<Byte>, i: nat, max: int)
    requires p.state == HeaderFoundCR && i < |s| && ToChar(s[i]) == LF
    requires q == p.(state := HeaderFoundCRLF)
    ensures Feed(p, s, i, max) == Feed(q, s, i + 1, max)
  {
    assert Dispatch(p, s, i, max) == Outcome(q, i + 1, None);
  }

  /** A header line ended by a bare LF: nothing more is read. */
  lemma AfterBareLF(p: Parser, q: Parser, s: seq<Byte>, i: nat, max: int)
    requires p.state == HeaderFoundLF && i <= |s|
    requires q == p.(state := HeaderFoundCRLF)
    ensures Feed(p, s, i, max) == Feed(q, s, i, max)
  {
    assert Dispatch(p, s, i, max) == Outcome(q, i, None);
  }

  /** The end of a header line, by CR LF or by a bare LF. */
  lemma LineEndStep(p: Parser, q: Parser, s: seq<Byte>, i: nat, crlf: bool, j: nat, max: int)
    requires p.state == (if crlf then HeaderFoundCR else HeaderFoundLF) && i <= |s|
    requires crlf ==> i < |s| && ToChar(s[i]) == LF
    requires q == p.(state := HeaderFoundCRLF) && j == (if crlf then i + 1 else i)
    ensures Feed(p, s, i, max) == Feed(q, s, j, max)
  {
    if crlf {
      FeedAfterCR(p, q, s, i, max);
    } else {
      AfterBareLF(p, q, s, i, max);
    }
  }

  /** SP or HT right after a header line's end continues that field with
      one SP. */
  lemma WhiteAfterLine(p: Parser, q: Parser, s: seq<Byte>, i: nat, max: int)
    requires p.state == HeaderFoundCRLF && i < |s| && IsWhite(ToChar(s[i]))
    requires max <= 0 || p.size + |p.sb| + 1 + 32 <= max
    requires q == p.(sb := p.sb + [SP], state := Header)
    ensures Feed(p, s, i, max) == Feed(q, s, i + 1, max)
  {
    assert Dispatch(p, s, i, max) == Outcome(q, i + 1, None);
  }

  /** Any other character after a header line's end first adds the pending
      field to the table (giving p1), then starts a new one. */
  lemma CharAfterLine(p: Parser, p1: Parser, q: Parser, s: seq<Byte>, i: nat, max: int)
    requires p.state == HeaderFoundCRLF && i < |s|
    requires var c := ToChar(s[i]); c != CR && c != LF && !IsWhite(c)
    requires Flush(p, max) == (p1, None)
    requires max <= 0 || p1.size + |p1.sb| + 1 + 32 <= max
    requires q == p1.(sb := p1.sb + [ToChar(s[i])], state := Header)
    ensures Feed(p, s, i, max) == Feed(q, s, i + 1, max)
  {
    assert Dispatch(p, s, i, max) == Outcome(q, i + 1, None);
  }

  /** The empty line after the last field: the pending field is added (giving
      p1) and parse finishes right after the line. */
  lemma EmptyLineAfterLine(p: Parser, p1: Parser, s: seq<Byte>, i: nat, crlf: bool, max: int)
    requires p.state == HeaderFoundCRLF && Flush(p, max) == (p1, None)
    requires if crlf then i + 1 < |s| && ToChar(s[i]) == CR && ToChar(s[i + 1]) == LF
             else i < |s| && ToChar(s[i]) == LF
    ensures Feed(p, s, i, max) == Outcome(Finish(p1), if crlf then i + 2 else i + 1, None)
  {
    if crlf {
      var q := p1.(state := HeaderFoundCRLFCR);
      assert Dispatch(p, s, i, max) == Outcome(q, i + 1, None);
      assert Dispatch(q, s, i + 1, max) == Outcome(Finish(p1), i + 2, None);
      assert Feed(Finish(p1), s, i + 2, max) == Outcome(Finish(p1), i + 2, None);
      assert Feed(q, s, i + 1, max) == Feed(Finish(p1), s, i + 2, max);
    } else {
      assert Dispatch(p, s, i, max) == Outcome(Finish(p1), i + 1, None);
      assert Feed(Finish(p1), s, i + 1, max) == Outcome(Finish(p1), i + 1, None);
    }
  }

  /** The empty line right after the status line: parse finishes with no
      headers. */
  lemma EmptyLineAfterStatus(p: Parser, s: seq<Byte>, i: nat, crlf: bool, max: int)
    requires p.state == StatusLineEnd
    requires if crlf then i + 1 < |s| && ToChar(s[i]) == CR && ToChar(s[i + 1]) == LF
             else i < |s| && ToChar(s[i]) == LF
    ensures Feed(p, s, i, max) == Outcome(Finish(p), if crlf then i + 2 else i + 1, None)
  {
    if crlf {
      var q := p.(state := StatusLineEndCR);
      assert Dispatch(p, s, i, max) == Outcome(q, i + 1, None);
      assert Dispatch(q, s, i + 1, max) == Outcome(Finish(p), i + 2, None);
      assert Feed(Finish(p), s, i + 2, max) == Outcome(Finish(p), i + 2, None);
      assert Feed(q, s, i + 1, max) == Feed(Finish(p), s, i + 2, max);
    } else {
      var q := p.(state := StatusLineEndLF);
      assert Dispatch(p, s, i, max) == Outcome(q, i + 1, None);
      assert Dispatch(q, s, i + 1, max) == Outcome(Finish(p), i + 1, None);
      assert Feed(Finish(p), s, i + 1, max) == Outcome(Finish(p), i + 1, None);
      assert Feed(q, s, i + 1, max) == Feed(Finish(p), s, i + 1, max);
    }
  }

  /** A step that raises an error ends parse with that step's outcome. */
  lemma StepError(p: Parser, s: seq<Byte>, i: nat, max: int)
    requires i <= |s| && CanContinue(p, s, i) && Dispatch(p, s, i, max).err.Some?
    ensures Feed(p, s, i, max) == Dispatch(p, s, i, max)
  {
  }

  /** A CR right after the status line begins the empty line. */
  lemma CRAfterStatus(p: Parser, q: Parser, s: seq<Byte>, i: nat, max: int)
    requires p.state == StatusLineEnd && i < |s| && ToChar(s[i]) == CR
    requires q == p.(state := StatusLineEndCR)
    ensures Feed(p, s, i, max) == Feed(q, s, i + 1, max)
  {
    assert Dispatch(p, s, i, max) == Outcome(q, i + 1, None);
  }

  /** A CR after a header line's end adds the pending field to the table
      (giving p1) and begins the empty line. */
  lemma CRAfterLine(p: Parser, p1: Parser, q: Parser, s: seq<Byte>, i: nat, max: int)
    requires p.state == HeaderFoundCRLF && i < |s| && ToChar(s[i]) == CR
    requires Flush(p, max) == (p1, None) && q == p1.(state := HeaderFoundCRLFCR)
    ensures Feed(p, s, i, max) == Feed(q, s, i + 1, max)
  {
    assert Dispatch(p, s, i, max) == Outcome(q, i + 1, None);
  }
}
