/**
  The parser object itself: the fields of Http1HeaderParser that its
  methods update in place, and the buffer it reads from. Every method does
  what the Java method does, statement by statement, with the exception it
  may raise returned as an Option; its contract ties the new fields and
  buffer position to the step function of the machine, so that everything
  proved of the machine holds of the object.
*/
module Http1Parser {
  import opened Http1Text
  import opened Http1Machine

  /** The part of a ByteBuffer the parser uses: its bytes, up to the limit,
      and the read position. */
  class ByteBuffer {
    const data: seq<Byte>
    var position: nat

    constructor (data: seq<Byte>)
      ensures this.data == data && position == 0
    {
      this.data := data;
      position := 0;
    }

    predicate HasRemaining()
      reads this
    {
      position < |data|
    }

    /** get(): the byte at the position, which moves on by one. */
    method Get() returns (b: Byte)
      requires position < |data|
      modifies this
      ensures b == data[old(position)] && position == old(position) + 1
    {
      b := data[position];
      position := position + 1;
    }
  }

  class Http1HeaderParser {
    var sb: string
    var statusLine: string
    var responseCode: int
    var headers: Option<Headers>
    var privateMap: Headers
    var size: int
    var state: State
    /** MAX_HTTP_HEADER_SIZE, read once from jdk.http.maxHeaderSize. */
    const maxHeaderSize: int

    /** The fields, as the machine's value. */
    function Snapshot(): Parser
      reads this
    {
      Parser(state, sb, statusLine, responseCode, privateMap, size, headers)
    }

    constructor (maxHeaderSize: int)
      ensures Snapshot() == Fresh && this.maxHeaderSize == maxHeaderSize
    {
      sb := [];
      statusLine := [];
      responseCode := 0;
      headers := None;
      privateMap := map[];
      size := 0;
      state := Initial;
      this.maxHeaderSize := maxHeaderSize;
    }

    /** parse: runs the steps while the parser can continue; true once the
        head is complete. An exception leaves the fields and the buffer as
        the step that raised it left them. */
    method Parse(input: ByteBuffer) returns (finished: bool, err: Option<ParseError>)
      requires input.position <= |input.data|
      modifies this, input
      ensures Outcome(Snapshot(), input.position, err) ==
        Feed(old(Snapshot()), input.data, old(input.position), maxHeaderSize)
      ensures finished <==> err.None? && state == Finished
    {
      ghost var goal := Feed(Snapshot(), input.data, input.position, maxHeaderSize);
      err := None;
      var more := CanContinueParsing(input);
      while more
        invariant input.position <= |input.data|
        invariant more == CanContinue(Snapshot(), input.data, input.position)
        invariant goal == Feed(Snapshot(), input.data, input.position, maxHeaderSize)
        invariant err.None?
        decreases |input.data| - input.position, Rank(state)
      {
        ghost var p, i := Snapshot(), input.position;
        assert goal == Turn(p, input.data, i, maxHeaderSize);
        err := Step(input);
        if err.Some? {
          finished := false;
          return;
        }
        more := CanContinueParsing(input);
      }
      finished := state == Finished;
    }

    /** One turn of the loop of parse: the step of the current state. */
    method Step(input: ByteBuffer) returns (err: Option<ParseError>)
      requires input.position <= |input.data| && CanContinue(Snapshot(), input.data, input.position)
      modifies this, input
      ensures Outcome(Snapshot(), input.position, err) ==
        Dispatch(old(Snapshot()), input.data, old(input.position), maxHeaderSize)
    {
      match state
      case Initial =>
        state := StatusLine;
        err := None;
      case StatusLine =>
        err := ReadResumeStatusLine(input);
      case StatusLineFoundCR =>
        err := ReadStatusLineFeed(input);
      case StatusLineFoundLF =>
        err := ReadStatusLineFeed(input);
      case StatusLineEnd =>
        err := MaybeStartHeaders(input);
      case StatusLineEndCR =>
        err := MaybeEndHeaders(input);
      case StatusLineEndLF =>
        err := MaybeEndHeaders(input);
      case Header =>
        err := ReadResumeHeader(input);
      case HeaderFoundCR =>
        err := ResumeOrLF(input);
      case HeaderFoundLF =>
        err := ResumeOrLF(input);
      case HeaderFoundCRLF =>
        err := ResumeOrSecondCR(input);
      case HeaderFoundCRLFCR =>
        err := ResumeOrEndHeaders(input);
    }

    /** canContinueParsing. */
    method CanContinueParsing(input: ByteBuffer) returns (b: bool)
      ensures b == CanContinue(Snapshot(), input.data, input.position)
    {
      match state
      case Finished => b := false;
      case StatusLineFoundLF => b := true;
      case StatusLineEndLF => b := true;
      case HeaderFoundLF => b := true;
      case _ => b := input.HasRemaining();
    }

    /** readResumeStatusLine: the characters up to the first CR or LF are
        gathered; the size is checked once the count passes what the limit
        leaves. */
    method ReadResumeStatusLine(input: ByteBuffer) returns (err: Option<ParseError>)
      requires state == StatusLine && input.position < |input.data|
      modifies this, input
      ensures Outcome(Snapshot(), input.position, err) ==
        Http1Machine.ReadResumeStatusLine(old(Snapshot()), input.data, old(input.position), maxHeaderSize)
    {
      ghost var goal := Http1Machine.ReadResumeStatusLine(Snapshot(), input.data, input.position, maxHeaderSize);
      ghost var sb0 := sb;
      var max := maxHeaderSize - size - 32 - |sb|;
      var count := 0;
      var c: char := 0 as char;
      err := None;
      while input.HasRemaining()
        invariant input.position <= |input.data| && state == StatusLine && err.None?
        invariant c != CR && c != LF
        invariant count == |sb| - |sb0| && max == maxHeaderSize - size - 32 - |sb0|
        invariant goal == Http1Machine.ReadResumeStatusLine(Snapshot(), input.data, input.position, maxHeaderSize)
        decreases |input.data| - input.position
      {
        var b := input.Get();
        c := ToChar(b);
        if c == CR || c == LF {
          break;
        }
        sb := sb + [c];
        count := count + 1;
        if count > max {
          err := CheckMaxHeaderSize(|sb|);
          if err.Some? {
            return;
          }
        }
      }
      if c == CR {
        state := StatusLineFoundCR;
      } else if c == LF {
        state := StatusLineFoundLF;
      }
    }

    /** readStatusLineFeed: the status line must end with LF, start with
        "HTTP/1." and have at least 12 characters; it is accounted before it
        is checked, and the code is parsed from characters 9 to 11. */
    method ReadStatusLineFeed(input: ByteBuffer) returns (err: Option<ParseError>)
      requires state == StatusLineFoundCR || state == StatusLineFoundLF
      requires input.position <= |input.data| && (state == StatusLineFoundLF || input.position < |input.data|)
      modifies this, input
      ensures Outcome(Snapshot(), input.position, err) ==
        Http1Machine.ReadStatusLineFeed(old(Snapshot()), input.data, old(input.position))
    {
      ghost var p := Snapshot();
      ghost var o := Http1Machine.ReadStatusLineFeed(p, input.data, input.position);
      var c: char;
      if state == StatusLineFoundLF {
        c := LF;
      } else {
        var b := input.Get();
        c := ToChar(b);
      }
      assert input.position == o.pos;
      if c != LF {
        return Some(ProtocolError);
      }
      statusLine := sb;
      size := size + 32 + |statusLine|;
      sb := [];
      ghost var p' := p.(statusLine := p.sb, size := p.size + 32 + |p.sb|, sb := []);
      assert Snapshot() == p';
      if !StartsWith(statusLine, "HTTP/1.") {
        return Some(ProtocolError);
      }
      if |statusLine| < 12 {
        return Some(ProtocolError);
      }
      var code := ParseInt(statusLine[9..12]);
      if code.None? {
        return Some(NumberFormatError);
      }
      responseCode := code.value;
      state := StatusLineEnd;
      err := None;
    }

    /** checkMaxHeaderSize. */
    method CheckMaxHeaderSize(sz: int) returns (err: Option<ParseError>)
      ensures err == Http1Machine.CheckMaxHeaderSize(size, sz, maxHeaderSize)
    {
      var s := size + sz + 32;
      if maxHeaderSize > 0 && s > maxHeaderSize {
        err := Some(ProtocolError);
      } else {
        err := None;
      }
    }

    /** newSize. */
    method NewSize(size: int, name: int, value: int) returns (r: Option<int>)
      ensures r == Http1Machine.NewSize(size, name, value, maxHeaderSize)
    {
      var newSize := size + name + value + 32;
      if maxHeaderSize > 0 && newSize > maxHeaderSize {
        r := None;
      } else {
        r := Some(newSize);
      }
    }

    /** maybeStartHeaders. */
    method MaybeStartHeaders(input: ByteBuffer) returns (err: Option<ParseError>)
      requires state == StatusLineEnd && input.position < |input.data|
      modifies this, input
      ensures Outcome(Snapshot(), input.position, err) ==
        Http1Machine.MaybeStartHeaders(old(Snapshot()), input.data, old(input.position), maxHeaderSize)
    {
      var b := input.Get();
      var c := ToChar(b);
      err := None;
      if c == CR {
        state := StatusLineEndCR;
      } else if c == LF {
        state := StatusLineEndLF;
      } else {
        sb := sb + [c];
        err := CheckMaxHeaderSize(|sb|);
        if err.Some? {
          return;
        }
        state := Header;
      }
    }

    /** maybeEndHeaders. */
    method MaybeEndHeaders(input: ByteBuffer) returns (err: Option<ParseError>)
      requires state == StatusLineEndCR || state == StatusLineEndLF
      requires input.position <= |input.data| && (state == StatusLineEndLF || input.position < |input.data|)
      modifies this, input
      ensures Outcome(Snapshot(), input.position, err) ==
        Http1Machine.MaybeEndHeaders(old(Snapshot()), input.data, old(input.position))
    {
      var c: char;
      if state == StatusLineEndLF {
        c := LF;
      } else {
        var b := input.Get();
        c := ToChar(b);
      }
      if c == LF {
        headers := Some(privateMap);
        state := Finished;
        err := None;
      } else {
        err := Some(ProtocolError);
      }
    }

    /** readResumeHeader: header text up to the first CR or LF, HT gathered
        as SP; the size is checked once the count passes what the limit
        leaves. */
    method ReadResumeHeader(input: ByteBuffer) returns (err: Option<ParseError>)
      requires state == Header && input.position < |input.data|
      modifies this, input
      ensures Outcome(Snapshot(), input.position, err) ==
        Http1Machine.ReadResumeHeader(old(Snapshot()), input.data, old(input.position), maxHeaderSize)
    {
      ghost var goal := Http1Machine.ReadResumeHeader(Snapshot(), input.data, input.position, maxHeaderSize);
      ghost var sb0 := sb;
      var max := maxHeaderSize - size - 32 - |sb|;
      var count := 0;
      err := None;
      while input.HasRemaining()
        invariant input.position <= |input.data| && state == Header && err.None?
        invariant count == |sb| - |sb0| && max == maxHeaderSize - size - 32 - |sb0|
        invariant goal == Http1Machine.ReadResumeHeader(Snapshot(), input.data, input.position, maxHeaderSize)
        decreases |input.data| - input.position
      {
        var b := input.Get();
        var c := ToChar(b);
        if c == CR {
          state := HeaderFoundCR;
          break;
        } else if c == LF {
          state := HeaderFoundLF;
          break;
        }
        if c == HT {
          c := SP;
        }
        sb := sb + [c];
        count := count + 1;
        if count > max {
          err := CheckMaxHeaderSize(|sb|);
          if err.Some? {
            return;
          }
        }
      }
    }

    /** addHeaderFromString: the line is split at its first ':'; without a
        ':' or a name it is dropped, otherwise its size is accounted and its
        value appended to the list of its lower-cased name. */
    method AddHeaderFromString(headerString: string) returns (err: Option<ParseError>)
      requires sb == []
      modifies this
      ensures (Snapshot(), err) == Http1Machine.AddHeaderFromString(old(Snapshot()), headerString, maxHeaderSize)
    {
      err := None;
      var idx := IndexOf(headerString, ':');
      if idx == -1 {
        return;
      }
      var name := Trim(headerString[..idx]);
      if |name| == 0 {
        return;
      }
      var value := Trim(headerString[idx + 1..]);
      var newSize := NewSize(size, |name|, |value|);
      if newSize.None? {
        return Some(ProtocolError);
      }
      size := newSize.value;
      var key := Lower(name);
      var values := if key in privateMap then privateMap[key] else [];
      privateMap := privateMap[key := values + [value]];
    }

    /** resumeOrLF. */
    method ResumeOrLF(input: ByteBuffer) returns (err: Option<ParseError>)
      requires state == HeaderFoundCR || state == HeaderFoundLF
      requires input.position <= |input.data| && (state == HeaderFoundLF || input.position < |input.data|)
      modifies this, input
      ensures Outcome(Snapshot(), input.position, err) ==
        Http1Machine.ResumeOrLF(old(Snapshot()), input.data, old(input.position), maxHeaderSize)
    {
      var c: char;
      if state == HeaderFoundLF {
        c := LF;
      } else {
        var b := input.Get();
        c := ToChar(b);
      }
      err := None;
      if c == LF {
        state := HeaderFoundCRLF;
      } else if c == SP || c == HT {
        sb := sb + [SP];
        err := CheckMaxHeaderSize(|sb|);
        if err.Some? {
          return;
        }
        state := Header;
      } else {
        sb := [c];
        err := CheckMaxHeaderSize(1);
        if err.Some? {
          return;
        }
        state := Header;
      }
    }

    /** resumeOrSecondCR. */
    method ResumeOrSecondCR(input: ByteBuffer) returns (err: Option<ParseError>)
      requires state == HeaderFoundCRLF && input.position < |input.data|
      modifies this, input
      ensures Outcome(Snapshot(), input.position, err) ==
        Http1Machine.ResumeOrSecondCR(old(Snapshot()), input.data, old(input.position), maxHeaderSize)
    {
      var b := input.Get();
      var c := ToChar(b);
      err := None;
      if c == CR || c == LF {
        err := FlushPending();
        if err.Some? {
          return;
        }
        if c == CR {
          state := HeaderFoundCRLFCR;
        } else {
          state := Finished;
          headers := Some(privateMap);
        }
      } else if c == SP || c == HT {
        sb := sb + [SP];
        err := CheckMaxHeaderSize(|sb|);
        if err.Some? {
          return;
        }
        state := Header;
      } else {
        err := FlushPending();
        if err.Some? {
          return;
        }
        sb := sb + [c];
        err := CheckMaxHeaderSize(|sb|);
        if err.Some? {
          return;
        }
        state := Header;
      }
    }

    /** The flush of resumeOrSecondCR: pending text, if any, is taken out of
        the builder and added as a header. */
    method FlushPending() returns (err: Option<ParseError>)
      modifies this
      ensures (Snapshot(), err) == Flush(old(Snapshot()), maxHeaderSize)
    {
      err := None;
      if |sb| > 0 {
        var headerString := sb;
        sb := [];
        err := AddHeaderFromString(headerString);
      }
    }

    /** resumeOrEndHeaders. */
    method ResumeOrEndHeaders(input: ByteBuffer) returns (err: Option<ParseError>)
      requires state == HeaderFoundCRLFCR && input.position < |input.data|
      modifies this, input
      ensures Outcome(Snapshot(), input.position, err) ==
        Http1Machine.ResumeOrEndHeaders(old(Snapshot()), input.data, old(input.position))
    {
      var b := input.Get();
      var c := ToChar(b);
      if c == LF {
        state := Finished;
        headers := Some(privateMap);
        err := None;
      } else {
        err := Some(ProtocolError);
      }
    }
  }
}
