/** The sketch's tag extractor `parse(input, value)` (main.cpp:23-29): it
    looks up the first `<value>` and the first `</value>` in the whole
    response body and returns `substring(startIndex, endIndex)`, where
    startIndex is the position just past the opening marker and endIndex the
    position of the closing marker. Nothing checks that either marker was
    found, so a missing marker feeds the -1 sentinel into the arithmetic. */
module TagParse {
  import opened ArduinoString

  /** The opening marker `"<" + value + ">"`. */
  function OpenTag(value: string): (t: string)
    ensures |t| == |value| + 2 && t[0] == '<' && t[1..|t| - 1] == value && t[|t| - 1] == '>'
  {
    "<" + value + ">"
  }

  /** The closing marker `"</" + value + ">"`. */
  function CloseTag(value: string): (t: string)
    ensures |t| == |value| + 3 && t[0] == '<' && t[1] == '/' && t[2..|t| - 1] == value && t[|t| - 1] == '>'
  {
    "</" + value + ">"
  }

  /** `parse(input, value)`. The int/unsigned conversions of the C++ code are
      explicit: a closing marker that is not found gives endIndex -1, which
      `substring` receives as 2^32 - 1. */
  function Parse(input: string, value: string): (r: string)
    ensures |r| <= |input|
  {
    var start := OpenTag(value);
    var startIndex := IndexOf(input, start) + |start|;
    var end := CloseTag(value);
    var endIndex := IndexOf(input, end);
    Substring(input, ToUnsigned(startIndex), ToUnsigned(endIndex))
  }

  /** An occurrence pins down every character it covers. */
  lemma OccursAtChar(s: string, pat: string, k: int, m: int)
    requires 0 <= m < |pat|
    ensures OccursAt(s, pat, k) ==> s[k + m] == pat[m]
  {
    if OccursAt(s, pat, k) {
      assert s[k..k + |pat|][m] == s[k + m];
    }
  }

  /** The well-formed case: with the first `<value>` ending at or before the
      first `</value>`, `parse` returns exactly the text between them. */
  lemma ParseFirstPair(input: string, value: string, i: int, j: int)
    requires |input| < U32
    requires IsFirst(input, OpenTag(value), i) && IsFirst(input, CloseTag(value), j)
    requires i + |value| + 2 <= j
    ensures Parse(input, value) == input[i + |value| + 2..j]
  {
    IndexOfFirst(input, OpenTag(value), i);
    IndexOfFirst(input, CloseTag(value), j);
  }

  /** The closing marker is searched from the start of the body, not after
      the opening marker: when the first `</value>` comes before the end of
      the first `<value>`, `substring` swaps the bounds and `parse` returns
      the text from the closing marker to the end of the opening one. */
  lemma ParseCloseBeforeOpen(input: string, value: string, i: int, j: int)
    requires |input| < U32
    requires IsFirst(input, OpenTag(value), i) && IsFirst(input, CloseTag(value), j)
    requires j < i + |value| + 2
    ensures Parse(input, value) == input[j..i + |value| + 2]
  {
    IndexOfFirst(input, OpenTag(value), i);
    IndexOfFirst(input, CloseTag(value), j);
  }

  /** Without an opening marker the start index is -1 + (|value| + 2) =
      |value| + 1, and `parse` returns the text between that position and the
      first closing marker, in whichever order they come. */
  lemma ParseOpenMissing(input: string, value: string, j: int)
    requires |input| < U32
    requires Absent(input, OpenTag(value)) && IsFirst(input, CloseTag(value), j)
    ensures |value| + 1 <= j ==> Parse(input, value) == input[|value| + 1..j]
    ensures j < |value| + 1 ==> Parse(input, value) == input[j..|value| + 1]
  {
    IndexOfAbsent(input, OpenTag(value));
    IndexOfFirst(input, CloseTag(value), j);
  }

  /** With neither marker present, `parse` does not fail: it returns the body
      from position |value| + 1 to its end (empty for a short body). */
  lemma ParseNoMarkers(input: string, value: string)
    requires |input| < U32 && |value| + 2 < U32
    requires Absent(input, OpenTag(value)) && Absent(input, CloseTag(value))
    ensures |value| + 1 <= |input| ==> Parse(input, value) == input[|value| + 1..]
    ensures |input| < |value| + 1 ==> Parse(input, value) == []
  {
    IndexOfAbsent(input, OpenTag(value));
    IndexOfAbsent(input, CloseTag(value));
  }

  /** With an opening but no closing marker, endIndex -1 becomes 2^32 - 1,
      `substring` clamps it to the length, and `parse` returns everything
      after the opening marker. */
  lemma ParseCloseMissing(input: string, value: string, i: int)
    requires |input| < U32
    requires IsFirst(input, OpenTag(value), i) && Absent(input, CloseTag(value))
    ensures Parse(input, value) == input[i + |value| + 2..]
  {
    IndexOfFirst(input, OpenTag(value), i);
    IndexOfAbsent(input, CloseTag(value));
  }

  /** Whatever the body, `parse` returns one contiguous piece of it. */
  lemma ParseIsSlice(input: string, value: string)
    ensures exists lo, hi :: 0 <= lo <= hi <= |input| && Parse(input, value) == input[lo..hi]
  {
    var open := OpenTag(value);
    SubstringIsSlice(input, ToUnsigned(IndexOf(input, open) + |open|), ToUnsigned(IndexOf(input, CloseTag(value))));
  }

  /** Once both markers occur, the result depends only on their first
      occurrences: text appended to the body never changes it. */
  lemma ParseIgnoresLaterText(input: string, tail: string, value: string, i: int, j: int)
    requires |input + tail| < U32
    requires IsFirst(input, OpenTag(value), i) && IsFirst(input, CloseTag(value), j)
    ensures Parse(input + tail, value) == Parse(input, value)
  {
    var open, close := OpenTag(value), CloseTag(value);
    IsFirstAppend(input, tail, open, i);
    IsFirstAppend(input, tail, close, j);
    IndexOfFirst(input, open, i);
    IndexOfFirst(input + tail, open, i);
    IndexOfFirst(input, close, j);
    IndexOfFirst(input + tail, close, j);
    SubstringOfAppend(input, tail, i + |open|, j);
  }

  /** A marker's only '<' is its first character, when the name holds none. */
  lemma MarkerTail(value: string)
    requires '<' !in value
    ensures '<' !in OpenTag(value)[1..] && '<' !in CloseTag(value)[1..]
  {
    assert OpenTag(value)[1..] == value + ">";
    assert CloseTag(value)[1..] == "/" + value + ">";
  }

  /** A marker cannot cover a '<' of the text anywhere but at its start. */
  lemma NoStraddle(s: string, value: string, q: int, p: int)
    requires '<' !in value
    requires 0 <= q < p < |s| && s[p] == '<'
    ensures p < q + |OpenTag(value)| ==> !OccursAt(s, OpenTag(value), q)
    ensures p < q + |CloseTag(value)| ==> !OccursAt(s, CloseTag(value), q)
  {
    var open, close := OpenTag(value), CloseTag(value);
    MarkerTail(value);
    if p < q + |open| {
      OccursAtChar(s, open, q, p - q);
      assert open[p - q] == open[1..][p - q - 1];
    }
    if p < q + |close| {
      OccursAtChar(s, close, q, p - q);
      assert close[p - q] == close[1..][p - q - 1];
    }
  }

  /** An opening marker with no earlier opening marker before it is the first
      one; since a marker can only start at a '<', none can reach into it. */
  lemma OpenIsFirst(input: string, value: string, i: int)
    requires '<' !in value
    requires OccursAt(input, OpenTag(value), i) && Absent(input[..i], OpenTag(value))
    ensures IsFirst(input, OpenTag(value), i)
  {
    var open := OpenTag(value);
    OccursAtChar(input, open, i, 0);
    forall q | 0 <= q < i
      ensures !OccursAt(input, open, q)
    {
      if q + |open| <= i {
        OccursInSlice(input, 0, i, open, q);
        assert input[0..i] == input[..i];
      } else {
        NoStraddle(input, value, q, i);
      }
    }
  }

  /** A closing marker is the first one when no closing marker lies before the
      opening marker or between the two, and the tag name holds neither '<'
      nor '/'. */
  lemma CloseIsFirst(input: string, value: string, i: int, j: int)
    requires '<' !in value && '/' !in value
    requires OccursAt(input, OpenTag(value), i) && OccursAt(input, CloseTag(value), j)
    requires i + |value| + 2 <= j
    requires Absent(input[..i], CloseTag(value)) && Absent(input[i + |value| + 2..j], CloseTag(value))
    ensures IsFirst(input, CloseTag(value), j)
  {
    var open, close := OpenTag(value), CloseTag(value);
    var e := i + |open|;
    OccursAtChar(input, open, i, 0);
    OccursAtChar(input, close, j, 0);
    MarkerTail(value);
    forall q | 0 <= q < j
      ensures !OccursAt(input, close, q)
    {
      if q + |close| <= i {
        OccursInSlice(input, 0, i, close, q);
        assert input[0..i] == input[..i];
      } else if q < i {
        NoStraddle(input, value, q, i);
      } else if q == i {
        OccursAtChar(input, close, q, 1);
        OccursAtChar(input, open, i, 1);
        assert open[1] == '>' || open[1] == value[0];
      } else if q < e {
        OccursAtChar(input, close, q, 0);
        OccursAtChar(input, open, i, q - i);
        assert open[q - i] == open[1..][q - i - 1];
      } else if q + |close| <= j {
        OccursInSlice(input, e, j, close, q);
      } else {
        NoStraddle(input, value, q, j);
      }
    }
  }

  /** A body of the form a + "<value>" + x + "</value>" + b yields exactly x,
      provided no marker of `value` occurs in a, no closing marker occurs in
      x, and the tag name holds neither '<' nor '/'. */
  lemma ParseElement(a: string, value: string, x: string, b: string)
    requires '<' !in value && '/' !in value
    requires Absent(a, OpenTag(value)) && Absent(a, CloseTag(value)) && Absent(x, CloseTag(value))
    requires |a + OpenTag(value) + x + CloseTag(value) + b| < U32
    ensures Parse(a + OpenTag(value) + x + CloseTag(value) + b, value) == x
  {
    var open, close := OpenTag(value), CloseTag(value);
    var input := a + open + x + close + b;
    var i := |a|;
    var j := |a| + |open| + |x|;
    assert input[..i] == a;
    assert input[i..i + |open|] == open;
    assert input[i + |open|..j] == x;
    assert input[j..j + |close|] == close;
    OpenIsFirst(input, value, i);
    CloseIsFirst(input, value, i, j);
    ParseFirstPair(input, value, i, j);
  }

  /** One field of a flat XML document: a tag name and the text it encloses. */
  datatype Field = Field(name: string, text: string)

  /** The element `<name>text</name>`. */
  function Element(f: Field): (e: string)
    ensures |e| > 0 && e[0] == '<' && e[|e| - 1] == '>'
  {
    OpenTag(f.name) + f.text + CloseTag(f.name)
  }

  /** The elements of `fields`, in order, with nothing between them. */
  function Document(fields: seq<Field>): (d: string)
    ensures fields != [] ==> |d| > 0 && d[0] == '<'
  {
    if fields == [] then "" else Element(fields[0]) + Document(fields[1..])
  }

  /** A tag name holding no markup character. */
  predicate PlainName(name: string)
  {
    '<' !in name && '>' !in name && '/' !in name
  }

  /** Every tag name is plain and no text holds a '<'. */
  predicate PlainFields(fields: seq<Field>)
  {
    forall k :: 0 <= k < |fields| ==> PlainName(fields[k].name) && '<' !in fields[k].text
  }

  /** A text without '<' holds no marker. */
  lemma LtFreeAbsent(s: string, pat: string)
    requires |pat| > 0 && pat[0] == '<' && '<' !in s
    ensures Absent(s, pat)
  {
    AbsentByChar(s, pat, 0);
  }

  /** Joining two texts creates no new marker when the second starts with '<'. */
  lemma AbsentBeforeLt(a: string, b: string, value: string)
    requires '<' !in value && |b| > 0 && b[0] == '<'
    ensures Absent(a, OpenTag(value)) && Absent(b, OpenTag(value)) ==> Absent(a + b, OpenTag(value))
    ensures Absent(a, CloseTag(value)) && Absent(b, CloseTag(value)) ==> Absent(a + b, CloseTag(value))
  {
    var s := a + b;
    forall q | 0 <= q < |a|
      ensures !OccursAt(s, OpenTag(value), q) || q + |OpenTag(value)| <= |a|
      ensures !OccursAt(s, CloseTag(value), q) || q + |CloseTag(value)| <= |a|
    {
      NoStraddle(s, value, q, |a|);
    }
    forall pat | pat == OpenTag(value) || pat == CloseTag(value)
      ensures Absent(a, pat) && Absent(b, pat) ==> Absent(s, pat)
    {
      if Absent(a, pat) && Absent(b, pat) {
        forall q | 0 <= q <= |s|
          ensures !OccursAt(s, pat, q)
        {
          if q + |pat| <= |a| {
            SliceOfAppend(a, b, q, q + |pat|);
            assert !OccursAt(a, pat, q);
          } else if |a| <= q && q + |pat| <= |s| {
            assert s[q..q + |pat|] == b[q - |a|..q - |a| + |pat|];
            assert !OccursAt(b, pat, q - |a|);
          }
        }
      }
    }
  }

  /** A text starting with `pre + n + ">"` does not start with `pre + v + ">"`
      for another name v, when neither name holds a '>'. */
  lemma NamesDiffer(s: string, pre: string, n: string, v: string)
    requires '>' !in n && '>' !in v && n != v
    requires OccursAt(s, pre + n + ">", 0)
    ensures !OccursAt(s, pre + v + ">", 0)
  {
    var k := |pre|;
    var tn, tv := pre + n + ">", pre + v + ">";
    if |n| == |v| {
      var m :| 0 <= m < |n| && n[m] != v[m];
      OccursAtChar(s, tn, 0, k + m);
      OccursAtChar(s, tv, 0, k + m);
      assert tn[k + m] == n[m] && tv[k + m] == v[m];
    } else if |n| < |v| {
      OccursAtChar(s, tn, 0, k + |n|);
      OccursAtChar(s, tv, 0, k + |n|);
      assert tv[k + |n|] == v[|n|];
    } else {
      OccursAtChar(s, tn, 0, k + |v|);
      OccursAtChar(s, tv, 0, k + |v|);
      assert tn[k + |v|] == n[|v|];
    }
  }

  /** An element holds no marker of another plain tag name. */
  lemma ElementAbsent(f: Field, value: string)
    requires PlainName(f.name) && PlainName(value) && f.name != value && '<' !in f.text
    ensures Absent(Element(f), OpenTag(value)) && Absent(Element(f), CloseTag(value))
  {
    var open, close := OpenTag(value), CloseTag(value);
    var head := OpenTag(f.name) + f.text;
    var tail := CloseTag(f.name);
    assert head[..|OpenTag(f.name)|] == OpenTag(f.name);
    assert OccursAt(head, "<" + f.name + ">", 0);
    assert OccursAt(tail, "</" + f.name + ">", 0);
    NamesDiffer(head, "<", f.name, value);
    NamesDiffer(tail, "</", f.name, value);
    OccursAtChar(head, OpenTag(f.name), 0, 1);
    OccursAtChar(head, close, 0, 1);
    OccursAtChar(tail, open, 0, 1);
    assert OpenTag(f.name)[1] == '>' || OpenTag(f.name)[1] == f.name[0];
    assert open[1] == '>' || open[1] == value[0];
    MarkerTail(f.name);
    forall pat, q | (pat == open || pat == close) && 0 < q <= |head|
      ensures !OccursAt(head, pat, q)
    {
      if q < |head| {
        OccursAtChar(head, pat, q, 0);
        if q < |OpenTag(f.name)| {
          assert head[q] == OpenTag(f.name)[1..][q - 1];
        } else {
          assert head[q] == f.text[q - |OpenTag(f.name)|];
        }
      }
    }
    forall pat, q | (pat == open || pat == close) && 0 < q <= |tail|
      ensures !OccursAt(tail, pat, q)
    {
      if q < |tail| {
        OccursAtChar(tail, pat, q, 0);
        assert tail[q] == tail[1..][q - 1];
      }
    }
    AbsentBeforeLt(head, tail, value);
  }

  /** A document holds no marker of a plain name none of its fields has. */
  lemma {:induction false} DocumentAbsent(fields: seq<Field>, value: string)
    requires PlainFields(fields) && PlainName(value)
    requires forall k :: 0 <= k < |fields| ==> fields[k].name != value
    ensures Absent(Document(fields), OpenTag(value)) && Absent(Document(fields), CloseTag(value))
  {
    if fields != [] {
      var rest := fields[1..];
      assert PlainFields(rest) by {
        forall k | 0 <= k < |rest| ensures PlainName(rest[k].name) && '<' !in rest[k].text {
          assert rest[k] == fields[k + 1];
        }
      }
      forall k | 0 <= k < |rest| ensures rest[k].name != value {
        assert rest[k] == fields[k + 1];
      }
      DocumentAbsent(rest, value);
      ElementAbsent(fields[0], value);
      if rest == [] {
        assert Document(fields) == Element(fields[0]);
      } else {
        AbsentBeforeLt(Element(fields[0]), Document(rest), value);
      }
    }
  }

  /** The document of two field lists is the two documents joined. */
  lemma {:induction false} DocumentAppend(f: seq<Field>, g: seq<Field>)
    ensures Document(f + g) == Document(f) + Document(g)
  {
    if f != [] {
      assert (f + g)[1..] == f[1..] + g;
      DocumentAppend(f[1..], g);
    } else {
      assert f + g == g;
    }
  }

  /** A document seen around its field number k. */
  lemma DocumentSplit(fields: seq<Field>, k: int)
    requires 0 <= k < |fields|
    ensures Document(fields)
         == Document(fields[..k]) + OpenTag(fields[k].name) + fields[k].text + CloseTag(fields[k].name)
            + Document(fields[k + 1..])
  {
    var f := fields[k];
    var before, rest, after := fields[..k], fields[k..], fields[k + 1..];
    assert fields == before + rest;
    DocumentAppend(before, rest);
    assert rest[0] == f && rest[1..] == after;
    Regroup(Document(before), OpenTag(f.name), f.text, CloseTag(f.name), Document(after));
  }

  /** Regrouping a concatenation of five texts. */
  lemma Regroup(a: string, o: string, t: string, c: string, b: string)
    ensures a + (o + t + c + b) == a + o + t + c + b
  {
  }

  /** The fields before number k are plain when all of them are. */
  lemma PlainPrefix(fields: seq<Field>, k: int)
    requires PlainFields(fields) && 0 <= k <= |fields|
    ensures PlainFields(fields[..k])
  {
    forall m | 0 <= m < k
      ensures PlainName(fields[..k][m].name) && '<' !in fields[..k][m].text
    {
      assert fields[..k][m] == fields[m];
    }
  }

  /** In a flat document of plain fields, `parse` returns the text of the
      first field with the given name; later fields never matter. */
  lemma ParseDocument(fields: seq<Field>, k: int)
    requires PlainFields(fields) && 0 <= k < |fields|
    requires forall m :: 0 <= m < k ==> fields[m].name != fields[k].name
    requires |Document(fields)| < U32
    ensures Parse(Document(fields), fields[k].name) == fields[k].text
  {
    var f := fields[k];
    var before := fields[..k];
    DocumentSplit(fields, k);
    PlainPrefix(fields, k);
    assert PlainName(f.name) && '<' !in f.text;
    forall m | 0 <= m < |before|
      ensures before[m].name != f.name
    {
      assert before[m] == fields[m];
    }
    DocumentAbsent(before, f.name);
    LtFreeAbsent(f.text, CloseTag(f.name));
    ParseElement(Document(before), f.name, f.text, Document(fields[k + 1..]));
  }

  /** A pattern with no markup character can only occur in an element
      inside its name or inside its text. */
  lemma ElementAbsentPlain(f: Field, pat: string)
    requires |pat| > 0 && PlainName(pat)
    requires Absent(f.name, pat) && Absent(f.text, pat)
    ensures Absent(Element(f), pat)
  {
    var n := f.name;
    assert pat[0] in pat;
    AbsentByChar("<", pat, 0);
    AbsentByChar(">", pat, 0);
    AbsentByChar("</", pat, 0);
    AbsentJoin("<", n, pat);
    AbsentJoin("<" + n, ">", pat);
    AbsentJoin(OpenTag(n), f.text, pat);
    AbsentJoin("</", n, pat);
    AbsentJoin("</" + n, ">", pat);
    AbsentJoin(OpenTag(n) + f.text, CloseTag(n), pat);
  }

  /** A pattern with no markup character that no name and no text holds
      occurs nowhere in the document. */
  lemma {:induction false} DocumentAbsentPlain(fields: seq<Field>, pat: string)
    requires |pat| > 0 && PlainName(pat)
    requires forall k :: 0 <= k < |fields| ==> Absent(fields[k].name, pat) && Absent(fields[k].text, pat)
    ensures Absent(Document(fields), pat)
  {
    if fields == [] {
      assert Document(fields) == "";
    } else {
      var rest := fields[1..];
      forall k | 0 <= k < |rest|
        ensures Absent(rest[k].name, pat) && Absent(rest[k].text, pat)
      {
        assert rest[k] == fields[k + 1];
      }
      DocumentAbsentPlain(rest, pat);
      ElementAbsentPlain(fields[0], pat);
      AbsentJoin(Element(fields[0]), Document(rest), pat);
    }
  }

  /** A stray closing marker ahead of the element captures the wrong text. */
  lemma ParseStrayCloseExample()
    ensures Parse("</t><t>x</t>", "t") == "</t><t>"
  {
    var input := "</t><t>x</t>";
    assert input[4..7] == OpenTag("t");
    assert input[0..4] == CloseTag("t");
    forall q | 0 <= q < 4
      ensures !OccursAt(input, OpenTag("t"), q)
    {
      OccursAtChar(input, OpenTag("t"), q, 0);
      OccursAtChar(input, OpenTag("t"), q, 1);
    }
    ParseCloseBeforeOpen(input, "t", 4, 0);
  }
}
