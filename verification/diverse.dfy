/** Selecting annotation files that add at least one new name
    (`select_diverse_standoffs.py`).

    Each file's `.ann` lines are read into textbounds; the files are then
    visited in argument order (the shuffled copy of the list is never
    used) while a set of already seen lower-cased texts grows. A file is
    printed when one of its lower-cased texts is new and not empty,
    otherwise it is reported as skipped; either way its texts join the
    seen set.
 */
module DiverseStandoffs {
  import opened Wrappers
  import opened PyStrings
  import opened Seqs
  import StringDb
  import Standoff

  /** A textbound as `load_textbounds` keeps it: the offsets stay strings. */
  datatype Textbound = Textbound(id: string, typ: string, start: string, end: string, text: string)

  /** A line read as a textbound: it starts with `T` once its newline is
      dropped. */
  predicate IsTextboundLine(raw: string) {
    StartsWith(RStrip(raw, '\n'), 'T')
  }

  /** The TAB-separated fields of a line without its newline. */
  function Fields(raw: string): seq<string> {
    Split(RStrip(raw, '\n'), '\t')
  }

  /** Three fields, the middle one holding three whitespace-separated
      tokens: type, start and end. */
  predicate WellFormedLine(raw: string) {
    |Fields(raw)| == 3 && |SplitWs(Fields(raw)[1])| == 3
  }

  /** One line of `load_textbounds`: `None` for a line that is not a
      textbound; either tuple unpacking raises `ValueError` on a wrong
      count. */
  function ParseLine(raw: string): (r: Result<Option<Textbound>>)
    ensures r.Failure? <==> IsTextboundLine(raw) && !WellFormedLine(raw)
    ensures r.Failure? ==> r.error == ValueError
    ensures r.Success? ==> (r.value.Some? <==> IsTextboundLine(raw))
  {
    if !IsTextboundLine(raw) then Success(None)
    else
      var f := Fields(raw);
      if |f| != 3 then Failure(ValueError)
      else
        var ts := SplitWs(f[1]);
        if |ts| != 3 then Failure(ValueError)
        else Success(Some(Textbound(f[0], ts[0], ts[1], ts[2], f[2])))
  }

  /** `load_textbounds`: the textbounds of a file in line order; one
      malformed textbound line makes the whole file fail. */
  function LoadTextbounds(lines: seq<string>): (r: Result<seq<Textbound>>)
    ensures r.Failure? <==> exists i :: 0 <= i < |lines| && ParseLine(lines[i]).Failure?
    ensures r.Failure? ==> r.error == ValueError
    ensures r.Success? ==> |r.value| == CountIf(lines, IsTextboundLine)
    decreases |lines|
  {
    if |lines| == 0 then Success([])
    else
      assert forall i :: 1 <= i < |lines| ==> lines[i] == lines[1..][i - 1];
      var first :- ParseLine(lines[0]);
      var rest :- LoadTextbounds(lines[1..]);
      Success((if first.Some? then [first.value] else []) + rest)
  }

  /** The textbounds loaded are exactly those of the textbound lines. */
  lemma {:induction false} LoadTextboundsMembers(lines: seq<string>, tb: Textbound)
    requires LoadTextbounds(lines).Success?
    ensures tb in LoadTextbounds(lines).value <==>
      exists i :: 0 <= i < |lines| && ParseLine(lines[i]) == Success(Some(tb))
    decreases |lines|
  {
    if |lines| > 0 {
      LoadTextboundsMembers(lines[1..], tb);
      if exists i :: 0 <= i < |lines| && ParseLine(lines[i]) == Success(Some(tb)) {
        var i :| 0 <= i < |lines| && ParseLine(lines[i]) == Success(Some(tb));
        if i > 0 {
          assert lines[1..][i - 1] == lines[i];
        }
      }
      if tb in LoadTextbounds(lines[1..]).value {
        var i :| 0 <= i < |lines| - 1 && ParseLine(lines[1..][i]) == Success(Some(tb));
        assert lines[i + 1] == lines[1..][i];
      }
    }
  }

  /** The `.ann` line a converted document writes is read back with its
      number as id, its label as type, its offsets as written and its
      text. */
  lemma ReadsWrittenTextbound(n: nat, tb: Standoff.Textbound)
    requires |Standoff.Label(tb)| > 0 && NoSpace(Standoff.Label(tb))
    requires '\t' !in tb.span.text && '\n' !in tb.span.text
    ensures ParseLine(Standoff.TextboundLine(n, tb) + "\n") == Success(Some(Textbound(
      "T" + NatToString(n), Standoff.Label(tb), IntToString(tb.span.start),
      IntToString(tb.span.end + 1), tb.span.text)))
  {
    ReadsLine(n, Standoff.Label(tb), tb.span.start, tb.span.end + 1, tb.span.text);
  }

  lemma ReadsLine(n: nat, lab: string, start: int, end: int, text: string)
    requires |lab| > 0 && NoSpace(lab)
    requires '\t' !in text && '\n' !in text
    ensures ParseLine(Join(["T" + NatToString(n), Join([lab, IntToString(start), IntToString(end)], ' '), text], '\t') + "\n")
         == Success(Some(Textbound("T" + NatToString(n), lab, IntToString(start), IntToString(end), text)))
  {
    var tokens := [lab, IntToString(start), IntToString(end)];
    IntToStringToken(start);
    IntToStringToken(end);
    var mid := Join(tokens, ' ');
    MiddleField(tokens);
    var id := "T" + NatToString(n);
    IdField(n);
    ReadsThreeFields(id, mid, text);
    assert SplitWs(mid) == tokens;
  }

  /** A textbound id is a `T` and digits. */
  lemma IdField(n: nat)
    ensures var id := "T" + NatToString(n); |id| > 0 && id[0] == 'T' && '\t' !in id && '\n' !in id
  {
    assert forall j :: 0 <= j < |NatToString(n)| ==> IsDigit(NatToString(n)[j]);
  }

  /** Space-joined tokens form a middle field that splits back into them
      and holds neither TAB nor newline. */
  lemma MiddleField(tokens: seq<string>)
    requires forall i :: 0 <= i < |tokens| ==> |tokens[i]| > 0 && NoSpace(tokens[i])
    ensures SplitWs(Join(tokens, ' ')) == tokens
    ensures '\t' !in Join(tokens, ' ') && '\n' !in Join(tokens, ' ')
  {
    SplitWsJoin(tokens);
    forall i | 0 <= i < |tokens| ensures '\t' !in tokens[i] && '\n' !in tokens[i] {
      assert forall j :: 0 <= j < |tokens[i]| ==> !IsSpace(tokens[i][j]);
    }
    JoinWithout(tokens, ' ', '\t');
    JoinWithout(tokens, ' ', '\n');
  }

  /** A line of three plain fields, the first starting with `T` and the
      middle one holding three tokens, is read as that textbound. */
  lemma ReadsThreeFields(id: string, mid: string, text: string)
    requires |id| > 0 && id[0] == 'T'
    requires '\t' !in id && '\n' !in id && '\t' !in mid && '\n' !in mid
    requires '\t' !in text && '\n' !in text
    requires |SplitWs(mid)| == 3
    ensures ParseLine(Join([id, mid, text], '\t') + "\n") == Success(Some(Textbound(
      id, SplitWs(mid)[0], SplitWs(mid)[1], SplitWs(mid)[2], text)))
  {
    var fields := [id, mid, text];
    var line := Join(fields, '\t');
    assert line == id + (['\t'] + Join(fields[1..], '\t'));
    assert '\n' !in line by {
      JoinWithout(fields, '\t', '\n');
    }
    StringDb.StripOneNewline(line);
    SplitJoin(fields, '\t');
    ParseFieldsLine(line + "\n", line, fields);
  }

  /** `ParseLine` once the newline is stripped and the fields are known. */
  lemma ParseFieldsLine(raw: string, line: string, fields: seq<string>)
    requires RStrip(raw, '\n') == line && |line| > 0 && line[0] == 'T'
    requires Split(line, '\t') == fields && |fields| == 3 && |SplitWs(fields[1])| == 3
    ensures ParseLine(raw) == Success(Some(Textbound(
      fields[0], SplitWs(fields[1])[0], SplitWs(fields[1])[1], SplitWs(fields[1])[2], fields[2])))
  {
    assert IsTextboundLine(raw);
    assert Fields(raw) == fields;
  }

  // ---------------------------------------------------------------------
  // The selection loop of `main`

  /** A file name with its loaded textbounds. */
  type Doc = (string, seq<Textbound>)

  /** `set(t.text.lower() for t in textbounds)`. */
  function LcTexts(tbs: seq<Textbound>): set<string> {
    set i | 0 <= i < |tbs| :: Lower(tbs[i].text)
  }

  /** `any(t for t in lc_texts if t not in seen)`: an unseen text counts
      only when it is not empty, since the empty string is false. */
  predicate HasNew(lc: set<string>, seen: set<string>) {
    exists t :: t in lc && t !in seen && t != ""
  }

  /** The seen set before the `n`-th file: the texts of all earlier files. */
  function SeenBefore(docs: seq<Doc>, n: nat): set<string>
    requires n <= |docs|
  {
    if n == 0 then {} else SeenBefore(docs, n - 1) + LcTexts(docs[n - 1].1)
  }

  /** The independent statement of the rule: the `i`-th file has a
      non-empty lower-cased text that no earlier file has. */
  predicate Novel(docs: seq<Doc>, i: nat)
    requires i < |docs|
  {
    exists t :: t in LcTexts(docs[i].1) && t != "" &&
      forall j :: 0 <= j < i ==> t !in LcTexts(docs[j].1)
  }

  /** What is printed for one file: its name, or the skip report with its
      texts and the seen set at that point. */
  datatype Verdict = Printed(file: string) | Skipped(file: string, texts: set<string>, seen: set<string>)

  /** A text is seen before file `n` exactly when an earlier file has it. */
  lemma {:induction false} SeenBeforeIff(docs: seq<Doc>, n: nat, t: string)
    requires n <= |docs|
    ensures t in SeenBefore(docs, n) <==> exists j :: 0 <= j < n && t in LcTexts(docs[j].1)
  {
    if n > 0 {
      SeenBeforeIff(docs, n - 1, t);
    }
  }

  /** The incremental test of the loop agrees with the rule. */
  lemma HasNewIsNovel(docs: seq<Doc>, i: nat)
    requires i < |docs|
    ensures HasNew(LcTexts(docs[i].1), SeenBefore(docs, i)) <==> Novel(docs, i)
  {
    forall t {
      SeenBeforeIff(docs, i, t);
    }
  }

  /** The loop of `main`: one verdict per file, in argument order; a file
      is printed exactly when it is novel. */
  method SelectDiverse(docs: seq<Doc>) returns (out: seq<Verdict>, seen: set<string>)
    ensures |out| == |docs|
    ensures forall i :: 0 <= i < |docs| ==> out[i].file == docs[i].0
    ensures forall i :: 0 <= i < |docs| ==> (out[i].Printed? <==> Novel(docs, i))
    ensures forall t :: t in seen <==> exists j :: 0 <= j < |docs| && t in LcTexts(docs[j].1)
  {
    out := [];
    seen := {};
    for i := 0 to |docs|
      invariant |out| == i
      invariant seen == SeenBefore(docs, i)
      invariant forall k :: 0 <= k < i ==> out[k].file == docs[k].0
      invariant forall k :: 0 <= k < i ==> (out[k].Printed? <==> Novel(docs, k))
    {
      var lc := LcTexts(docs[i].1);
      HasNewIsNovel(docs, i);
      if HasNew(lc, seen) {
        out := out + [Printed(docs[i].0)];
      } else {
        out := out + [Skipped(docs[i].0, lc, seen)];
      }
      seen := seen + lc;
    }
    forall t ensures t in seen <==> exists j :: 0 <= j < |docs| && t in LcTexts(docs[j].1) {
      SeenBeforeIff(docs, |docs|, t);
    }
  }

  /** The seen set only grows. */
  lemma {:induction false} SeenGrows(docs: seq<Doc>, m: nat, n: nat)
    requires m <= n <= |docs|
    ensures SeenBefore(docs, m) <= SeenBefore(docs, n)
    decreases n - m
  {
    if m < n {
      SeenGrows(docs, m, n - 1);
    }
  }

  /** A file without textbounds, or whose texts are all empty, is skipped. */
  lemma NoTextSkipped(docs: seq<Doc>, i: nat)
    requires i < |docs|
    requires forall k :: 0 <= k < |docs[i].1| ==> docs[i].1[k].text == ""
    ensures !Novel(docs, i)
  {
    forall t | t in LcTexts(docs[i].1) ensures t == "" {
      var k :| 0 <= k < |docs[i].1| && t == Lower(docs[i].1[k].text);
    }
  }

  /** A text that is not empty, as the truth test sees it. */
  predicate HasText(d: Doc) {
    exists k :: 0 <= k < |d.1| && d.1[k].text != ""
  }

  /** The first file holding a non-empty text is printed. */
  lemma FirstTextPrinted(docs: seq<Doc>, i: nat)
    requires i < |docs| && HasText(docs[i])
    requires forall j :: 0 <= j < i ==> !HasText(docs[j])
    ensures Novel(docs, i)
  {
    var k :| 0 <= k < |docs[i].1| && docs[i].1[k].text != "";
    var t := Lower(docs[i].1[k].text);
    assert t in LcTexts(docs[i].1);
    forall j | 0 <= j < i ensures t !in LcTexts(docs[j].1) {
      assert forall m :: 0 <= m < |docs[j].1| ==> Lower(docs[j].1[m].text) == "";
    }
  }

  /** A file listed again later (or any file whose texts all appeared
      before) is skipped. */
  lemma RepeatedSkipped(docs: seq<Doc>, j: nat, i: nat)
    requires j < i < |docs|
    requires LcTexts(docs[i].1) <= LcTexts(docs[j].1)
    ensures !Novel(docs, i)
  {
  }
}
