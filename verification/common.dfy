/** The STRING DB record formats: the text unescaper of the document file
    and the fixed-arity line parsers of the document and span files.

    A document line has six TAB-separated fields, the last one escaped; a
    span line has eight, of which `start` and `end` are integers. A wrong
    field count is the `ValueError` of Python's tuple unpacking, and a
    non-numeric offset the `ValueError` of `int()`.
 */
module StringDb {
  import opened Wrappers
  import opened PyStrings

  const Backslash: char := '\\'

  datatype StringDocument = StringDocument(
    docId: string, otherIds: string, authors: string, forum: string, year: string, text: string)

  datatype StringSpan = StringSpan(
    docId: string, parNum: string, sentNum: string, start: int, end: int,
    text: string, typeId: string, serial: string)

  /** `stringdb_unescape_text`: a scan over the pairs (character, next
      character). Two backslashes become one, a backslash and `t` become a
      TAB, and both characters are consumed; any other character, a lone
      trailing backslash included, is copied. The pairing is greedy from
      the left. */
  function Unescape(s: string): string
    decreases |s|
  {
    if |s| == 0 then ""
    else if |s| >= 2 && s[0] == Backslash && s[1] == Backslash then [Backslash] + Unescape(s[2..])
    else if |s| >= 2 && s[0] == Backslash && s[1] == 't' then ['\t'] + Unescape(s[2..])
    else [s[0]] + Unescape(s[1..])
  }

  /** The escaping the unescaper undoes: a backslash is doubled and a TAB
      is written as backslash and `t`. (The repository's own escaper is not
      part of this model; this is the reference inverse.) */
  function Escape(s: string): (r: string)
    ensures '\t' !in r
    decreases |s|
  {
    if |s| == 0 then ""
    else if s[0] == Backslash then [Backslash, Backslash] + Escape(s[1..])
    else if s[0] == '\t' then [Backslash, 't'] + Escape(s[1..])
    else [s[0]] + Escape(s[1..])
  }

  /** Unescaping undoes escaping. */
  lemma {:induction false} UnescapeEscape(s: string)
    ensures Unescape(Escape(s)) == s
    decreases |s|
  {
    if |s| > 0 {
      UnescapeEscape(s[1..]);
      var e := Escape(s);
      if s[0] == Backslash {
        assert e[2..] == Escape(s[1..]);
      } else if s[0] == '\t' {
        assert e[2..] == Escape(s[1..]);
      } else {
        assert e[1..] == Escape(s[1..]);
      }
      assert s == [s[0]] + s[1..];
    }
  }

  /** Unescaping never lengthens the text. */
  lemma {:induction false} UnescapeShorter(s: string)
    ensures |Unescape(s)| <= |s|
    decreases |s|
  {
    if |s| >= 2 && s[0] == Backslash && (s[1] == Backslash || s[1] == 't') {
      UnescapeShorter(s[2..]);
    } else if |s| > 0 {
      UnescapeShorter(s[1..]);
    }
  }

  /** Text without a backslash comes back unchanged. */
  lemma {:induction false} UnescapeNoBackslash(s: string)
    requires Backslash !in s
    ensures Unescape(s) == s
    decreases |s|
  {
    if |s| > 0 {
      UnescapeNoBackslash(s[1..]);
      assert s == [s[0]] + s[1..];
    }
  }

  /** Greedy pairing: backslash, backslash, `t` is a backslash followed by
      `t`, not a TAB. */
  lemma UnescapeGreedy()
    ensures Unescape([Backslash, Backslash, 't']) == [Backslash, 't']
  {
    var s := [Backslash, Backslash, 't'];
    assert s[2..] == ['t'];
    assert Unescape(['t']) == ['t'];
  }

  /** `parse_stringdb_input_line`: trailing newlines are dropped, the line
      must have exactly six TAB-separated fields, and only the text is
      unescaped. */
  function ParseInputLine(line: string): (r: Result<StringDocument>)
    ensures r.Failure? <==> |Split(RStrip(line, '\n'), '\t')| != 6
    ensures r.Failure? ==> r.error == ValueError
  {
    var fields := Split(RStrip(line, '\n'), '\t');
    if |fields| != 6 then Failure(ValueError)
    else Success(StringDocument(fields[0], fields[1], fields[2], fields[3], fields[4], Unescape(fields[5])))
  }

  /** `parse_stringdb_span_line`: exactly eight fields, of which `start`
      and `end` must parse as integers. */
  function ParseSpanLine(line: string): (r: Result<StringSpan>)
    ensures r.Failure? ==> r.error == ValueError
    ensures var f := Split(RStrip(line, '\n'), '\t');
      r.Success? <==> |f| == 8 && ParseInt(f[3]).Success? && ParseInt(f[4]).Success?
    ensures var f := Split(RStrip(line, '\n'), '\t');
      r.Success? ==>
        && r.value.docId == f[0] && r.value.parNum == f[1] && r.value.sentNum == f[2]
        && r.value.start == ParseInt(f[3]).value && r.value.end == ParseInt(f[4]).value
        && r.value.text == f[5] && r.value.typeId == f[6] && r.value.serial == f[7]
  {
    var f := Split(RStrip(line, '\n'), '\t');
    if |f| != 8 then Failure(ValueError)
    else
      var start :- ParseInt(f[3]);
      var end :- ParseInt(f[4]);
      Success(StringSpan(f[0], f[1], f[2], start, end, f[5], f[6], f[7]))
  }

  /** A field fit for a TAB-separated line. */
  predicate PlainField(s: string) {
    '\t' !in s && '\n' !in s
  }

  /** The document line that writes `d`, with its text escaped. */
  function DocumentLine(d: StringDocument): string {
    Join([d.docId, d.otherIds, d.authors, d.forum, d.year, Escape(d.text)], '\t') + "\n"
  }

  /** Parsing a written document line gives the document back. */
  lemma ParseDocumentLine(d: StringDocument)
    requires PlainField(d.docId) && PlainField(d.otherIds) && PlainField(d.authors)
    requires PlainField(d.forum) && PlainField(d.year) && '\n' !in d.text
    ensures ParseInputLine(DocumentLine(d)) == Success(d)
  {
    var fields := [d.docId, d.otherIds, d.authors, d.forum, d.year, Escape(d.text)];
    EscapeKeepsNewlines(d.text);
    var body := Join(fields, '\t');
    JoinNoNewline(fields, '\t');
    StripOneNewline(body);
    SplitJoin(fields, '\t');
    UnescapeEscape(d.text);
  }

  lemma {:induction false} EscapeKeepsNewlines(s: string)
    requires '\n' !in s
    ensures '\n' !in Escape(s)
    decreases |s|
  {
    if |s| > 0 {
      assert '\n' !in s[1..];
      EscapeKeepsNewlines(s[1..]);
    }
  }

  lemma {:induction false} JoinNoNewline(fields: seq<string>, sep: char)
    requires sep != '\n'
    requires forall i :: 0 <= i < |fields| ==> '\n' !in fields[i]
    ensures '\n' !in Join(fields, sep)
    decreases |fields|
  {
    if |fields| > 1 {
      JoinNoNewline(fields[1..], sep);
    }
  }

  lemma StripOneNewline(s: string)
    requires '\n' !in s
    ensures RStrip(s + "\n", '\n') == s
  {
    assert (s + "\n")[..|s|] == s;
    if |s| > 0 {
      assert s[|s| - 1] in s;
    }
    RStripNoop(s, '\n');
  }

  /** The span line that writes `sp`, offsets in decimal. */
  function SpanLine(sp: StringSpan): string {
    Join([sp.docId, sp.parNum, sp.sentNum, IntToString(sp.start), IntToString(sp.end),
          sp.text, sp.typeId, sp.serial], '\t') + "\n"
  }

  /** Parsing a written span line gives the span back. */
  lemma ParseWrittenSpanLine(sp: StringSpan)
    requires PlainField(sp.docId) && PlainField(sp.parNum) && PlainField(sp.sentNum)
    requires PlainField(sp.text) && PlainField(sp.typeId) && PlainField(sp.serial)
    ensures ParseSpanLine(SpanLine(sp)) == Success(sp)
  {
    var fields := [sp.docId, sp.parNum, sp.sentNum, IntToString(sp.start), IntToString(sp.end),
                   sp.text, sp.typeId, sp.serial];
    DecimalPlain(sp.start);
    DecimalPlain(sp.end);
    var body := Join(fields, '\t');
    JoinNoNewline(fields, '\t');
    StripOneNewline(body);
    SplitJoin(fields, '\t');
    ParseIntOfIntToString(sp.start);
    ParseIntOfIntToString(sp.end);
  }

  lemma DecimalPlain(i: int)
    ensures PlainField(IntToString(i))
  {
    var s := IntToString(i);
    var digits := if i < 0 then NatToString(-i) else NatToString(i);
    assert forall j :: 0 <= j < |digits| ==> IsDigit(digits[j]);
  }

  /** A span line with a non-numeric offset is rejected. */
  lemma SpanLineNeedsNumbers(line: string)
    requires var f := Split(RStrip(line, '\n'), '\t'); |f| == 8 && ParseInt(f[3]).Failure?
    ensures ParseSpanLine(line) == Failure(ValueError)
  {
  }
}
