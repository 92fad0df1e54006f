/** Cutting documents down to title and abstract, and re-projecting their
    tags (`cutdocuments.py`, `cuttags.py`).

    A document text is TAB-separated into sections; when it has more than
    two, only the first two (title and abstract) are kept. The tags are
    re-projected through an offset map that is the identity on the kept
    prefix and undefined on the rest; a tag is kept when both its offsets
    are defined. The two scripts agree: the kept prefix is exactly the cut
    text.
 */
module Cutting {
  import opened Wrappers
  import opened PyStrings
  import opened Seqs
  import opened SpanModel

  type OffsetMap = seq<Option<int>>

  /** `'\t'.join(sections[:2])`: the title and abstract. */
  function TitleAbstract(text: string): string
    requires |Split(text, '\t')| > 2
  {
    Join(Split(text, '\t')[..2], '\t')
  }

  lemma TitleAbstractIsPrefix(text: string)
    requires |Split(text, '\t')| > 2
    ensures |TitleAbstract(text)| < |text|
    ensures text[..|TitleAbstract(text)|] == TitleAbstract(text)
    ensures text[|TitleAbstract(text)|] == '\t'
  {
    var f := Split(text, '\t');
    JoinFirstTwoIsPrefix(f, '\t');
    var t := TitleAbstract(text);
    assert text == t + ['\t'] + Join(f[2..], '\t');
    assert text[..|t|] == t;
  }

  /** `cut_document` for the `tiab` cut: whether the document is cut, and
      its new text. */
  function CutDocument(text: string): (r: (bool, string))
    ensures r.0 <==> |Split(text, '\t')| > 2
    ensures !r.0 ==> r.1 == text
  {
    if |Split(text, '\t')| > 2 then (true, TitleAbstract(text)) else (false, text)
  }

  /** A cut text is a proper prefix of the original and has exactly two
      sections. */
  lemma CutDocumentPrefix(text: string)
    requires CutDocument(text).0
    ensures var t := CutDocument(text).1;
      |t| < |text| && text[..|t|] == t && |Split(t, '\t')| == 2
  {
    TitleAbstractIsPrefix(text);
    var f := Split(text, '\t');
    assert forall i :: 0 <= i < 2 ==> '\t' !in f[..2][i];
    SplitJoin(f[..2], '\t');
  }

  /** Cutting is idempotent: a cut text is not cut again. */
  lemma CutDocumentIdempotent(text: string)
    ensures !CutDocument(CutDocument(text).1).0
  {
    if CutDocument(text).0 {
      CutDocumentPrefix(text);
    }
  }

  /** `get_offset_map` for the `tiab` cut: `None` when the text is not
      cut, otherwise one entry per character of the original text, the
      identity on the title and abstract and undefined after them. */
  function GetOffsetMap(text: string): (r: Option<OffsetMap>)
    ensures r.None? <==> |Split(text, '\t')| <= 2
    ensures r.Some? ==> |r.value| == |text|
    ensures r.Some? ==> forall i :: 0 <= i < |text| ==>
      r.value[i] == if i < |TitleAbstract(text)| then Some(i) else None
  {
    if |Split(text, '\t')| <= 2 then None
    else
      var tiab := TitleAbstract(text);
      TitleAbstractIsPrefix(text);
      Some(seq(|tiab|, i requires 0 <= i < |tiab| => Some(i)) + seq(|text| - |tiab|, _ => None))
  }

  /** Python list indexing: negative indices count from the end, and an
      index out of range raises `IndexError`. */
  function PyIndex<T>(s: seq<T>, i: int): (r: Result<T>)
    ensures r.Failure? <==> !(-|s| <= i < |s|)
    ensures r.Failure? ==> r.error == IndexError
    ensures 0 <= i < |s| ==> r == Success(s[i])
  {
    if 0 <= i < |s| then Success(s[i])
    else if -|s| <= i < 0 then Success(s[|s| + i])
    else Failure(IndexError)
  }

  /** An offset a map can look up. */
  predicate Indexable(m: OffsetMap, i: int) {
    -|m| <= i < |m|
  }

  /** `apply_offset_map`: both offsets are looked up; a span with both
      defined is kept with the mapped offsets, a span with neither or only
      one is dropped (the latter after a warning). */
  function ApplyOffsetMap(spans: seq<Span>, m: OffsetMap): (r: Result<seq<Span>>)
    ensures r.Failure? <==> exists i :: 0 <= i < |spans| && !(Indexable(m, spans[i].start) && Indexable(m, spans[i].end))
    ensures r.Failure? ==> r.error == IndexError
    ensures r.Success? ==> |r.value| <= |spans|
    decreases |spans|
  {
    if |spans| == 0 then Success([])
    else
      var s := spans[0];
      match (PyIndex(m, s.start), PyIndex(m, s.end))
      case (Failure(e), _) => Failure(e)
      case (_, Failure(e)) => Failure(e)
      case (Success(start), Success(end)) =>
        var rest := ApplyOffsetMap(spans[1..], m);
        assert forall i :: 1 <= i < |spans| ==> spans[i] == spans[1..][i - 1];
        if rest.Failure? then rest
        else if start.Some? && end.Some? then Success([s.(start := start.value, end := end.value)] + rest.value)
        else rest
  }

  /** A span lying inside the first `n` characters. */
  function Within(n: nat): Span -> bool {
    (s: Span) => s.start < n && s.end < n
  }

  predicate InText(text: string, s: Span) {
    0 <= s.start < |text| && 0 <= s.end < |text|
  }

  /** With the title-and-abstract map, the tags kept are exactly those
      lying inside the title and abstract, unchanged and in their order.
      (`len(spans) - len(mapped)` is the number of the others.) */
  lemma {:induction false} ApplyTiabMap(text: string, spans: seq<Span>)
    requires GetOffsetMap(text).Some?
    requires forall i :: 0 <= i < |spans| ==> InText(text, spans[i])
    ensures ApplyOffsetMap(spans, GetOffsetMap(text).value)
         == Success(Filter(spans, Within(|TitleAbstract(text)|)))
    decreases |spans|
  {
    if |spans| > 0 {
      assert forall i :: 0 <= i < |spans| - 1 ==> spans[1..][i] == spans[i + 1];
      ApplyTiabMap(text, spans[1..]);
      var s := spans[0];
      TiabLookup(text, s.start);
      TiabLookup(text, s.end);
      assert s.(start := s.start, end := s.end) == s;
      assert spans == [s] + spans[1..];
    }
  }

  /** Looking up an offset inside the text in the title-and-abstract map. */
  lemma TiabLookup(text: string, i: int)
    requires GetOffsetMap(text).Some? && 0 <= i < |text|
    ensures PyIndex(GetOffsetMap(text).value, i)
         == Success(if i < |TitleAbstract(text)| then Some(i) else None)
  {
  }

  /** Agreement of the two scripts: the map is defined exactly when the
      document is cut, and its identity part is exactly the cut text. */
  lemma CutAgreement(text: string)
    ensures GetOffsetMap(text).Some? <==> CutDocument(text).0
    ensures GetOffsetMap(text).Some? ==> forall i :: 0 <= i < |text| ==>
      (GetOffsetMap(text).value[i] == Some(i) <==> i < |CutDocument(text).1|)
  {
  }

  /** Every re-projected tag reads the same characters in the cut text as
      in the original. */
  lemma KeptTagsReadSame(text: string, spans: seq<Span>, s: Span)
    requires forall t :: t in spans ==> InText(text, t)
    requires GetOffsetMap(text).Some?
    requires ApplyOffsetMap(spans, GetOffsetMap(text).value).Success?
    requires s in ApplyOffsetMap(spans, GetOffsetMap(text).value).value && s.start <= s.end
    ensures s in spans && InText(text, s) && s.end < |CutDocument(text).1|
    ensures CutDocument(text).1[s.start..s.end + 1] == text[s.start..s.end + 1]
  {
    assert forall i :: 0 <= i < |spans| ==> InText(text, spans[i]);
    ApplyTiabMap(text, spans);
    TitleAbstractIsPrefix(text);
    var cut := CutDocument(text).1;
    assert cut == text[..|cut|];
    assert cut[s.start..s.end + 1] == text[..|cut|][s.start..s.end + 1];
  }

  /** A tag reaching past the end of the text (or before its negated
      length) makes the re-projection fail with `IndexError`. */
  lemma ApplyOffsetMapOutOfRange(text: string, spans: seq<Span>, i: nat)
    requires GetOffsetMap(text).Some?
    requires i < |spans| && spans[i].end >= |text|
    ensures ApplyOffsetMap(spans, GetOffsetMap(text).value) == Failure(IndexError)
  {
  }

  // ---------------------------------------------------------------------
  // The summary of `cut_documents`.

  /** The cut share as printed: the loop index of the last document is
      the denominator, one less than the number of documents. With no
      document at all the loop never binds its index, so reading it
      raises `UnboundLocalError`. */
  function CutShareAsWritten(cutCount: nat, docs: nat): (r: Result<real>)
    requires cutCount <= docs
    ensures r.Failure? <==> docs <= 1
    ensures docs == 0 ==> r == Failure(UnboundLocalError)
    ensures docs == 1 ==> r == Failure(ZeroDivisionError)
    ensures r.Success? ==> r.value * (docs - 1) as real == cutCount as real
  {
    if docs == 0 then Failure(UnboundLocalError)
    else
      var lastIndex := docs - 1;
      if lastIndex == 0 then Failure(ZeroDivisionError) else Success(cutCount as real / lastIndex as real)
  }

  /** The printed share exceeds one when every document is cut, a single
      document makes the summary raise, and so does an empty file. */
  lemma CutShareAsWrittenWrong()
    ensures CutShareAsWritten(2, 2) == Success(2.0)
    ensures CutShareAsWritten(1, 1) == Failure(ZeroDivisionError)
    ensures CutShareAsWritten(0, 0) == Failure(UnboundLocalError)
  {
  }

  /** The share of documents cut, over the number of documents; there is
      none for an empty file. */
  function CutShare(cutCount: nat, docs: nat): (r: Option<real>)
    requires cutCount <= docs
    ensures r.None? <==> docs == 0
    ensures r.Some? ==> 0.0 <= r.value <= 1.0
    ensures r.Some? ==> (r.value == 1.0 <==> cutCount == docs)
    ensures r.Some? ==> r.value * docs as real == cutCount as real
  {
    if docs == 0 then None else Some(cutCount as real / docs as real)
  }
}
