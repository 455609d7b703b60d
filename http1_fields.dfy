/**
  Header field lines: how addHeaderFromString splits a completed line into
  a name and a value, which lines it drops, and how the values of repeated
  names accumulate in the table.
*/
module Http1Fields {
  import opened Http1Text
  import opened Http1Machine
  import opened Http1Head

  predicate AllBlank(w: string)
  {
    forall k :: 0 <= k < |w| ==> w[k] <= SP
  }

  /** Trimming leaves nothing exactly when every character is at or below
      SP. */
  lemma TrimEmpty(x: string)
    ensures |Trim(x)| == 0 <==> AllBlank(x)
  {
    var lo := TrimMiddle(x);
    TrimEnds(x);
    if |Trim(x)| > 0 {
      assert Trim(x)[0] == x[lo];
    }
  }

  lemma {:induction false} TrimStartPad(w: string, y: string)
    requires AllBlank(w) && (|y| > 0 ==> y[0] > SP)
    ensures TrimStart(w + y) == y
    decreases |w|
  {
    if |w| == 0 {
      assert w + y == y;
    } else {
      assert (w + y)[1..] == w[1..] + y;
      TrimStartPad(w[1..], y);
    }
  }

  lemma {:induction false} TrimEndPad(y: string, w: string)
    requires AllBlank(w) && (|y| > 0 ==> y[|y| - 1] > SP)
    ensures TrimEnd(y + w) == y
    decreases |w|
  {
    if |w| == 0 {
      assert y + w == y;
    } else {
      assert (y + w)[..|y + w| - 1] == y + w[..|w| - 1];
      TrimEndPad(y, w[..|w| - 1]);
    }
  }

  /** String.trim removes exactly the padding around a text that neither
      starts nor ends with a character at or below SP. */
  lemma TrimPadded(w0: string, x: string, w1: string)
    requires AllBlank(w0) && AllBlank(w1)
    requires |x| > 0 ==> x[0] > SP && x[|x| - 1] > SP
    ensures Trim(w0 + x + w1) == x
  {
    if |x| == 0 {
      assert w0 + x + w1 == w0 + w1;
      TrimEmpty(w0 + w1);
    } else {
      assert w0 + x + w1 == w0 + (x + w1);
      TrimStartPad(w0, x + w1);
      TrimEndPad(x, w1);
    }
  }

  /** The first occurrence of c is where IndexOf finds it. */
  lemma IndexOfAt(t: string, c: char, j: nat)
    requires j < |t| && t[j] == c && c !in t[..j]
    ensures IndexOf(t, c) == j
  {
    IndexOfFacts(t, c);
    assert forall k :: 0 <= k < j ==> t[..j][k] == t[k];
  }

  /** A completed line is dropped exactly when it has no ':' (IndexOf finds
      none) or only characters at or below SP before its first ':'. */
  lemma HeaderFieldDropped(t: string)
    ensures HeaderField(t).None? <==> IndexOf(t, ':') == -1 || AllBlank(t[..IndexOf(t, ':')])
    ensures IndexOf(t, ':') == -1 <==> ':' !in t
  {
    IndexOfFacts(t, ':');
    var idx := IndexOf(t, ':');
    if idx != -1 {
      TrimEmpty(t[..idx]);
    }
  }

  /** The round trip of a field line: a name without ':' that neither starts
      nor ends with a character at or below SP, a value of the same kind (or
      empty), padded with such characters around both and joined by ':',
      split back into that name and that value. */
  lemma HeaderFieldRoundTrip(name: string, value: string, w0: string, w1: string, w2: string, w3: string)
    requires |name| > 0 && ':' !in name && name[0] > SP && name[|name| - 1] > SP
    requires |value| > 0 ==> value[0] > SP && value[|value| - 1] > SP
    requires AllBlank(w0) && AllBlank(w1) && AllBlank(w2) && AllBlank(w3)
    ensures HeaderField(w0 + name + w1 + [':'] + w2 + value + w3) == Some(Field(name, value))
  {
    var pre := w0 + name + w1;
    var post := w2 + value + w3;
    var t := w0 + name + w1 + [':'] + w2 + value + w3;
    assert t == pre + [':'] + post;
    assert t[..|pre|] == pre && t[|pre|] == ':' && t[|pre| + 1..] == post;
    assert ':' !in pre by {
      forall k | 0 <= k < |pre|
        ensures pre[k] != ':'
      {
        if k < |w0| {
          assert pre[k] == w0[k];
        } else if k < |w0| + |name| {
          assert pre[k] == name[k - |w0|];
        } else {
          assert pre[k] == w1[k - |w0| - |name|];
        }
      }
    }
    IndexOfAt(t, ':', |pre|);
    TrimPadded(w0, name, w1);
    TrimPadded(w2, value, w3);
  }

  // ------------------------------------------------------------------
  // The table

  /** The values list of a key, empty when the key is absent. */
  function Lookup(m: Headers, key: string): seq<string>
  {
    if key in m then m[key] else []
  }

  /** The values of the field texts ts whose lower-cased name is key, in the
      order of ts. */
  function ValuesOf(ts: seq<string>, key: string): seq<string>
    decreases |ts|
  {
    if |ts| == 0 then []
    else
      var f := HeaderField(ts[|ts| - 1]);
      ValuesOf(ts[..|ts| - 1], key) + (if f.Some? && Lower(f.value.name) == key then [f.value.value] else [])
  }

  /** One field text adds its value at the end of its key's list and
      leaves every other key as it was. */
  lemma AddFieldLookup(m: Headers, t: string, key: string)
    ensures var f := HeaderField(t);
      Lookup(AddField(m, t), key) ==
        Lookup(m, key) + (if f.Some? && Lower(f.value.name) == key then [f.value.value] else [])
    ensures key in AddField(m, t) <==> key in m || (HeaderField(t).Some? && Lower(HeaderField(t).value.name) == key)
  {
  }

  /** Repeated names accumulate: the table lists, under each lower-cased
      name, the values of the fields with that name in arrival order, and
      holds the names that occur and no others. */
  lemma {:induction false} CollectMapValues(ts: seq<string>, key: string)
    ensures Lookup(CollectMap(ts), key) == ValuesOf(ts, key)
    ensures key in CollectMap(ts) <==> |ValuesOf(ts, key)| > 0
    decreases |ts|
  {
    if |ts| > 0 {
      var init := ts[..|ts| - 1];
      CollectMapValues(init, key);
      AddFieldLookup(CollectMap(init), ts[|ts| - 1], key);
      if key in CollectMap(init) {
        assert |Lookup(CollectMap(init), key)| > 0;
      }
    }
  }

  /** The values a parsed head hands out: under every lower-cased name, the
      values of the fields with that name in arrival order, continuation
      lines folded in. */
  lemma ParsedValues(status: Line, fields: seq<Line>, endCrlf: bool, s: seq<Byte>, max: int, key: string)
    requires ValidStatusLine(status.text) && ValidFieldLines(fields)
    requires At(s, 0, Head(status, fields, endCrlf))
    requires max <= 0 || 32 + |status.text| + FieldsSize(fields) <= max
    ensures var o := Feed(Fresh, s, 0, max);
      o.p.headers.Some? && Lookup(o.p.headers.value, key) == ValuesOf(Unfold(fields), key)
  {
    ParseHead(status, fields, endCrlf, s, max);
    CollectMapValues(Unfold(fields), key);
  }
}
