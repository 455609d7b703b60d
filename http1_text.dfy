/**
  Character-level helpers of the HTTP/1.1 response-head parser.

  The parser reads Java bytes and widens each to a char with a `(char)`
  cast, so a byte b yields the character b when b is not negative and
  b + 0x10000 (0xFF80 .. 0xFFFF) when it is. Everything here works on the
  characters such a cast can produce: the ASCII range and that top range.
*/
module Http1Text {
  import opened Decimal

  datatype Option<T> = None | Some(value: T)

  /** A Java byte: signed, eight bits. */
  newtype Byte = x: int | -128 <= x < 128

  const CR: char := '\r'
  const LF: char := '\n'
  const HT: char := '\t'
  const SP: char := ' '

  /** `(char) b` for a Java byte b: sign extension to int, then the low
      sixteen bits. */
  function ToChar(b: Byte): (c: char)
    ensures c as int % 0x1_0000 == b as int % 0x1_0000
    ensures c as int < 0x80 || 0xFF80 <= c as int < 0x1_0000
  {
    if b >= 0 then b as int as char else (b as int + 0x1_0000) as char
  }

  /** The characters a sequence of bytes is widened to. */
  function Chars(bs: seq<Byte>): (cs: string)
    ensures |cs| == |bs| && forall k :: 0 <= k < |bs| ==> cs[k] == ToChar(bs[k])
  {
    seq(|bs|, k requires 0 <= k < |bs| => ToChar(bs[k]))
  }

  predicate IsWhite(c: char)
  {
    c == SP || c == HT
  }

  predicate HasNoLineBreak(s: string)
  {
    forall k :: 0 <= k < |s| ==> s[k] != CR && s[k] != LF
  }

  /** The whitespace replacement of readResumeHeader: every HT becomes SP. */
  function Detab(s: string): (r: string)
  {
    seq(|s|, k requires 0 <= k < |s| => if s[k] == HT then SP else s[k])
  }

  lemma DetabAppend(s: string, t: string)
    ensures Detab(s + t) == Detab(s) + Detab(t)
  {
  }

  /** Gathering the first character of w and then the rest. */
  lemma AppendFirst(a: string, w: string)
    requires |w| > 0
    ensures a + [w[0]] + w[1..] == a + w
  {
    assert w == [w[0]] + w[1..];
  }

  lemma DetabFirst(a: string, w: string)
    requires |w| > 0
    ensures a + [if w[0] == HT then SP else w[0]] + Detab(w[1..]) == a + Detab(w)
  {
    assert w == [w[0]] + w[1..];
    DetabAppend([w[0]], w[1..]);
  }

  lemma DetabNoLineBreak(s: string)
    requires HasNoLineBreak(s)
    ensures HasNoLineBreak(Detab(s)) && |Detab(s)| == |s|
  {
  }

  /** String.startsWith. */
  predicate StartsWith(s: string, prefix: string)
  {
    |prefix| <= |s| && s[..|prefix|] == prefix
  }

  /** String.indexOf(c) from position k: the first index at or after k
      holding c, or -1 when there is none (IndexFromFacts). */
  function IndexFrom(s: string, c: char, k: nat): (r: int)
    requires k <= |s|
    ensures r == -1 || k <= r < |s|
    decreases |s| - k
  {
    if k == |s| then -1
    else if s[k] == c then k
    else IndexFrom(s, c, k + 1)
  }

  lemma {:induction false} IndexFromFacts(s: string, c: char, k: nat)
    requires k <= |s|
    ensures IndexFrom(s, c, k) == -1 <==> forall j :: k <= j < |s| ==> s[j] != c
    ensures IndexFrom(s, c, k) != -1 ==>
      s[IndexFrom(s, c, k)] == c && forall j :: k <= j < IndexFrom(s, c, k) ==> s[j] != c
    decreases |s| - k
  {
    if k < |s| && s[k] != c {
      IndexFromFacts(s, c, k + 1);
    }
  }

  function IndexOf(s: string, c: char): (r: int)
    ensures r == -1 || 0 <= r < |s|
  {
    IndexFrom(s, c, 0)
  }

  /** The index IndexOf finds is the first occurrence. */
  lemma IndexOfFacts(s: string, c: char)
    ensures IndexOf(s, c) == -1 <==> c !in s
    ensures IndexOf(s, c) != -1 ==> s[IndexOf(s, c)] == c && c !in s[..IndexOf(s, c)]
  {
    IndexFromFacts(s, c, 0);
    var r := IndexOf(s, c);
    if r != -1 {
      assert forall j :: 0 <= j < r ==> s[..r][j] == s[j];
    }
  }

  /** String.trim, first half: drop the leading characters at or below
      SP. */
  function TrimStart(s: string): (r: string)
    ensures |r| <= |s|
  {
    if |s| > 0 && s[0] <= SP then TrimStart(s[1..]) else s
  }

  /** TrimStart keeps a suffix of s, drops only characters at or below SP,
      and keeps none at its start. */
  lemma {:induction false} TrimStartFacts(s: string)
    ensures var r := TrimStart(s);
      && (forall k :: 0 <= k < |r| ==> r[k] == s[|s| - |r| + k])
      && (forall k :: 0 <= k < |s| - |r| ==> s[k] <= SP)
      && (|r| > 0 ==> r[0] > SP)
  {
    if |s| > 0 && s[0] <= SP {
      TrimStartFacts(s[1..]);
      var r := TrimStart(s[1..]);
      forall k | 0 <= k < |r|
        ensures r[k] == s[|s| - |r| + k]
      {
        assert r[k] == s[1..][|s| - 1 - |r| + k];
      }
      forall k | 1 <= k < |s| - |r|
        ensures s[k] <= SP
      {
        assert s[k] == s[1..][k - 1];
      }
    }
  }

  /** String.trim, second half: drop the trailing characters at or below
      SP. */
  function TrimEnd(s: string): (r: string)
    ensures |r| <= |s|
  {
    if |s| > 0 && s[|s| - 1] <= SP then TrimEnd(s[..|s| - 1]) else s
  }

  /** TrimEnd keeps a prefix of s, drops only characters at or below SP,
      and keeps none at its end. */
  lemma {:induction false} TrimEndFacts(s: string)
    ensures var r := TrimEnd(s);
      && (forall k :: 0 <= k < |r| ==> r[k] == s[k])
      && (forall k :: |r| <= k < |s| ==> s[k] <= SP)
      && (|r| > 0 ==> r[|r| - 1] > SP)
  {
    if |s| > 0 && s[|s| - 1] <= SP {
      TrimEndFacts(s[..|s| - 1]);
    }
  }

  /** String.trim: the part of s left after dropping, on both sides, the
      characters at or below SP (TrimMiddle). */
  function Trim(s: string): (r: string)
    ensures |r| <= |s|
  {
    TrimEnd(TrimStart(s))
  }

  /** Trim(s) is the middle of s: what it drops on either side is all at
      or below SP. */
  lemma TrimMiddle(s: string) returns (lo: nat)
    ensures lo + |Trim(s)| <= |s|
    ensures forall k :: 0 <= k < |Trim(s)| ==> Trim(s)[k] == s[lo + k]
    ensures forall k :: 0 <= k < lo ==> s[k] <= SP
    ensures forall k :: lo + |Trim(s)| <= k < |s| ==> s[k] <= SP
  {
    var t := TrimStart(s);
    lo := |s| - |t|;
    TrimStartFacts(s);
    TrimEndInside(s, t, lo);
  }

  /** The TrimEnd half of TrimMiddle, on the suffix t of s that starts at
      lo. */
  lemma TrimEndInside(s: string, t: string, lo: nat)
    requires lo + |t| == |s| && forall k :: 0 <= k < |t| ==> t[k] == s[|s| - |t| + k]
    ensures var r := TrimEnd(t);
      && (forall k :: 0 <= k < |r| ==> r[k] == s[lo + k])
      && (forall k :: lo + |r| <= k < |s| ==> s[k] <= SP)
  {
    var r := TrimEnd(t);
    TrimEndFacts(t);
    forall k | lo + |r| <= k < |s|
      ensures s[k] <= SP
    {
      assert s[k] == t[k - lo];
    }
  }

  /** Trim(s) neither starts nor ends with a character at or below SP. */
  lemma TrimEnds(s: string)
    ensures |Trim(s)| > 0 ==> Trim(s)[0] > SP && Trim(s)[|Trim(s)| - 1] > SP
  {
    var t := TrimStart(s);
    var r := TrimEnd(t);
    if |r| > 0 {
      assert r[0] == t[0] && r[|r| - 1] > SP by {
        TrimEndFacts(t);
      }
      assert t[0] > SP by {
        TrimStartFacts(s);
      }
    }
  }

  /** toLowerCase(Locale.US) on one character a byte can produce: only the
      ASCII capitals have lower-case forms there. */
  function LowerChar(c: char): (l: char)
  {
    if 'A' <= c <= 'Z' then (c as int + 32) as char else c
  }

  function Lower(s: string): (r: string)
  {
    seq(|s|, k requires 0 <= k < |s| => LowerChar(s[k]))
  }

  lemma LowerIdempotent(s: string)
    ensures Lower(Lower(s)) == Lower(s) && |Lower(s)| == |s|
  {
  }

  const IntMin: int := -0x8000_0000
  const IntMax: int := 0x7FFF_FFFF

  /** Integer.parseInt in radix 10: an optional sign and at least one
      digit, within the range of int. None stands for the
      NumberFormatException it raises otherwise. (The only decimal digits
      among the characters a byte can produce are the ASCII ones.) */
  function ParseInt(s: string): (r: Option<int>)
  {
    if |s| == 0 then None
    else
      var negative := s[0] == '-';
      var digits := if s[0] == '-' || s[0] == '+' then s[1..] else s;
      if |digits| == 0 || !AllDigits(digits) then None
      else
        var v: int := if negative then -(DigitsValue(digits) as int) else DigitsValue(digits);
        if IntMin <= v <= IntMax then Some(v) else None
  }

  /** The status code of a status line: three characters parse when they
      are three digits, or a sign followed by two digits; the value is the
      number they spell. */
  lemma ParseThreeChars(s: string)
    requires |s| == 3
    ensures ParseInt(s).Some? <==>
      AllDigits(s) || ((s[0] == '-' || s[0] == '+') && IsDigit(s[1]) && IsDigit(s[2]))
    ensures AllDigits(s) ==>
      ParseInt(s) == Some(100 * (s[0] as int - '0' as int) + 10 * (s[1] as int - '0' as int) + (s[2] as int - '0' as int))
    ensures (s[0] == '-' || s[0] == '+') && IsDigit(s[1]) && IsDigit(s[2]) ==>
      var v := 10 * (s[1] as int - '0' as int) + (s[2] as int - '0' as int);
      ParseInt(s) == Some(if s[0] == '-' then -v else v)
  {
    if AllDigits(s) {
      assert s[..2][..1] == s[..1];
      assert DigitsValue(s[..1]) == s[0] as int - '0' as int by {
        assert s[..1][..0] == [];
      }
    } else if (s[0] == '-' || s[0] == '+') && IsDigit(s[1]) && IsDigit(s[2]) {
      var d := s[1..];
      assert d[..1][..0] == [];
      assert DigitsValue(d[..1]) == s[1] as int - '0' as int;
    } else if s[0] == '-' || s[0] == '+' {
      assert !AllDigits(s[1..]) by {
        if !IsDigit(s[1]) { assert !IsDigit(s[1..][0]); } else { assert !IsDigit(s[1..][1]); }
      }
    }
  }
}
