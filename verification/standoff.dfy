/** Conversion of tagger output to brat standoff (`tagger2standoff.py`).

    Every span's type is normalised to a capitalised form; spans with the
    same `(start, end, type)` are merged into the first of them, which
    collects the serials and the sources of its group; the merged spans are
    written as textbound lines `T1`, `T2`, ... with end-exclusive offsets,
    and the document text is written with its TABs turned into newlines.
 */
module Standoff {
  import opened Wrappers
  import opened PyStrings
  import opened Seqs
  import opened SpanModel
  import opened SpanPreprocess

  // ---------------------------------------------------------------------
  // Type normalisation

  predicate IsUpperLetter(c: char) { 'A' <= c <= 'Z' }
  predicate IsLowerLetter(c: char) { 'a' <= c <= 'z' }

  /** `normalize_type`: lower-case everything, then upper-case the first
      character; an empty type is the `IndexError` of `type_[0]`. */
  function NormalizeType(t: string): (r: Result<string>)
    ensures r.Failure? <==> |t| == 0
    ensures r.Failure? ==> r.error == IndexError
    ensures r.Success? ==> |r.value| == |t| && Lower(r.value) == Lower(t)
    ensures r.Success? ==> !IsLowerLetter(r.value[0])
    ensures r.Success? ==> forall i :: 1 <= i < |r.value| ==> !IsUpperLetter(r.value[i])
  {
    var low := Lower(t);
    if |low| == 0 then Failure(IndexError)
    else
      var r := [UpperChar(low[0])] + low[1..];
      assert forall i :: 1 <= i < |r| ==> r[i] == LowerChar(t[i]);
      assert Lower(r)[0] == LowerChar(UpperChar(LowerChar(t[0]))) == LowerChar(t[0]);
      Success(r)
  }

  /** Normalisation picks one representative per case-insensitive class:
      two types normalise alike exactly when they agree ignoring case. */
  lemma NormalizeTypeCanonical(a: string, b: string)
    requires |a| > 0 && |b| > 0
    ensures NormalizeType(a) == NormalizeType(b) <==> Lower(a) == Lower(b)
  {
    if Lower(a) == Lower(b) {
      var ra, rb := NormalizeType(a).value, NormalizeType(b).value;
      assert forall i :: 0 <= i < |ra| ==> ra[i] == rb[i] by {
        forall i | 0 <= i < |ra| ensures ra[i] == rb[i] {
          assert Lower(a)[i] == Lower(b)[i];
        }
      }
    }
  }

  /** Normalising a normalised type changes nothing. */
  lemma NormalizeTypeIdempotent(t: string)
    requires |t| > 0
    ensures NormalizeType(NormalizeType(t).value) == NormalizeType(t)
  {
    NormalizeTypeCanonical(NormalizeType(t).value, t);
  }

  /** The types of all spans normalised, in order; the first empty type
      raises. */
  function NormalizeTypes(spans: seq<Span>): (r: Result<seq<Span>>)
    ensures r.Failure? <==> exists i :: 0 <= i < |spans| && |spans[i].typ| == 0
    ensures r.Failure? ==> r.error == IndexError
    ensures r.Success? ==> |r.value| == |spans|
    ensures r.Success? ==> forall i :: 0 <= i < |spans| ==>
      r.value[i] == spans[i].(typ := NormalizeType(spans[i].typ).value)
    decreases |spans|
  {
    if |spans| == 0 then Success([])
    else
      var t :- NormalizeType(spans[0].typ);
      var rest :- NormalizeTypes(spans[1..]);
      assert forall i :: 1 <= i < |spans| ==> spans[i] == spans[1..][i - 1];
      Success([spans[0].(typ := t)] + rest)
  }

  // ---------------------------------------------------------------------
  // Merging spans with the same boundaries and type

  /** A merged span and the sources of its group, in order of first
      appearance (the source keeps a `set`; its order is never observed,
      since the set is sorted before use). */
  datatype Textbound = Textbound(span: Span, sources: seq<string>)

  function SpansOf(tbs: seq<Textbound>): (r: seq<Span>)
    ensures |r| == |tbs| && forall i :: 0 <= i < |tbs| ==> r[i] == tbs[i].span
  {
    seq(|tbs|, i requires 0 <= i < |tbs| => tbs[i].span)
  }

  /** `set.update` on the sources of a group. */
  function AddSource(sources: seq<string>, x: string): seq<string> {
    if x in sources then sources else sources + [x]
  }

  /** One step of the loop: merge `s` into the kept span with its key
      (serials appended, source added), or keep it with its own source. */
  function MergeStep(kept: seq<Textbound>, s: Span): seq<Textbound> {
    match KeyIndex(SpansOf(kept), KeyOf(s))
    case None => kept + [Textbound(s, [s.source])]
    case Some(i) =>
      kept[i := Textbound(kept[i].span.(serials := kept[i].span.serials + s.serials),
                          AddSource(kept[i].sources, s.source))]
  }

  /** The merge loop of `deduplicate_spans` over all spans in order. */
  function Merge(spans: seq<Span>): seq<Textbound>
    decreases |spans|
  {
    if |spans| == 0 then []
    else MergeStep(Merge(spans[..|spans| - 1]), spans[|spans| - 1])
  }

  /** The sources of every span with key `k`. */
  function GroupSources(spans: seq<Span>, k: Key): set<string> {
    set i | 0 <= i < |spans| && KeyOf(spans[i]) == k :: spans[i].source
  }

  function Elements(s: seq<string>): set<string> {
    set x | x in s
  }

  lemma MergeStepSpans(kept: seq<Textbound>, s: Span)
    ensures SpansOf(MergeStep(kept, s)) == DedupStep(SpansOf(kept), s)
  {
  }

  /** As far as the spans go, the merge is the deduplication of the
      comparison engine: first span per key, group serials in order. */
  lemma {:induction false} MergeSpans(spans: seq<Span>)
    ensures SpansOf(Merge(spans)) == DeduplicateSpans(spans)
    decreases |spans|
  {
    if |spans| > 0 {
      MergeSpans(spans[..|spans| - 1]);
      MergeStepSpans(Merge(spans[..|spans| - 1]), spans[|spans| - 1]);
    }
  }

  lemma GroupSourcesSnoc(spans: seq<Span>, k: Key)
    requires |spans| > 0
    ensures GroupSources(spans, k) == GroupSources(spans[..|spans| - 1], k)
      + (if KeyOf(spans[|spans| - 1]) == k then {spans[|spans| - 1].source} else {})
  {
    var init := spans[..|spans| - 1];
    assert forall j :: 0 <= j < |init| ==> init[j] == spans[j];
  }

  lemma GroupSourcesAbsent(spans: seq<Span>, k: Key)
    requires !KeyIn(k, spans)
    ensures GroupSources(spans, k) == {}
  {
  }

  /** Every merged span holds each source of its group exactly once. */
  predicate SourcesOfGroups(spans: seq<Span>, tbs: seq<Textbound>) {
    forall i :: 0 <= i < |tbs| ==>
      NoDup(tbs[i].sources) && Elements(tbs[i].sources) == GroupSources(spans, KeyOf(tbs[i].span))
  }

  lemma {:induction false} MergeSources(spans: seq<Span>)
    ensures SourcesOfGroups(spans, Merge(spans))
    decreases |spans|
  {
    if |spans| > 0 {
      var init, last := spans[..|spans| - 1], spans[|spans| - 1];
      assert init + [last] == spans;
      MergeSources(init);
      MergeSpans(init);
      DeduplicateSpansSpec(init);
      MergeSourcesStep(init, last, Merge(init));
    }
  }

  lemma MergeSourcesStep(init: seq<Span>, last: Span, T: seq<Textbound>)
    requires SourcesOfGroups(init, T)
    requires DistinctKeys(SpansOf(T))
    requires forall k :: KeyIn(k, SpansOf(T)) <==> KeyIn(k, init)
    ensures SourcesOfGroups(init + [last], MergeStep(T, last))
  {
    match KeyIndex(SpansOf(T), KeyOf(last))
    case None =>
      MergeSourcesNew(init, last, T);
    case Some(j) =>
      MergeSourcesOld(init, last, T, j);
  }

  /** A span with a new key starts a group holding its own source. */
  lemma MergeSourcesNew(init: seq<Span>, last: Span, T: seq<Textbound>)
    requires SourcesOfGroups(init, T)
    requires forall k :: KeyIn(k, SpansOf(T)) <==> KeyIn(k, init)
    requires !KeyIn(KeyOf(last), SpansOf(T))
    ensures SourcesOfGroups(init + [last], T + [Textbound(last, [last.source])])
  {
    var spans := init + [last];
    assert spans[..|spans| - 1] == init;
    var M := T + [Textbound(last, [last.source])];
    forall i | 0 <= i < |M|
      ensures NoDup(M[i].sources) && Elements(M[i].sources) == GroupSources(spans, KeyOf(M[i].span))
    {
      var k := KeyOf(M[i].span);
      GroupSourcesSnoc(spans, k);
      if i < |T| {
        assert KeyOf(SpansOf(T)[i]) == k;
      } else {
        GroupSourcesAbsent(init, k);
        assert Elements([last.source]) == {last.source};
      }
    }
  }

  /** A span with the key of the `j`-th kept span adds its source to that
      group and to no other. */
  lemma MergeSourcesOld(init: seq<Span>, last: Span, T: seq<Textbound>, j: nat)
    requires SourcesOfGroups(init, T)
    requires DistinctKeys(SpansOf(T))
    requires j < |T| && KeyOf(T[j].span) == KeyOf(last)
    ensures var t := T[j].span.(serials := T[j].span.serials + last.serials);
      SourcesOfGroups(init + [last], T[j := Textbound(t, AddSource(T[j].sources, last.source))])
  {
    var spans := init + [last];
    assert spans[..|spans| - 1] == init;
    var M := T[j := Textbound(T[j].span.(serials := T[j].span.serials + last.serials),
                              AddSource(T[j].sources, last.source))];
    forall i | 0 <= i < |M|
      ensures NoDup(M[i].sources) && Elements(M[i].sources) == GroupSources(spans, KeyOf(M[i].span))
    {
      var k := KeyOf(M[i].span);
      GroupSourcesSnoc(spans, k);
      if i != j {
        assert KeyOf(SpansOf(T)[i]) != KeyOf(SpansOf(T)[j]);
      } else {
        assert Elements(AddSource(T[j].sources, last.source)) == Elements(T[j].sources) + {last.source};
      }
    }
  }

  /** `deduplicate_spans`: one span per `(start, end, type)` key, in order
      of first appearance; each is the first span of its group carrying the
      group's serials in order and the group's sources. */
  lemma DeduplicateSpec(spans: seq<Span>)
    ensures var M := Merge(spans);
      && |M| == |Representatives(spans)|
      && DistinctKeys(SpansOf(M))
      && (forall k :: KeyIn(k, SpansOf(M)) <==> KeyIn(k, spans))
      && (forall i :: 0 <= i < |M| ==>
            M[i].span == Representatives(spans)[i].(serials := GroupSerials(spans, KeyOf(M[i].span))))
      && SourcesOfGroups(spans, M)
  {
    MergeSpans(spans);
    DeduplicateSpansSpec(spans);
    MergeSources(spans);
  }

  // ---------------------------------------------------------------------
  // `','.join(sorted(span.sources))`

  predicate Sorted(s: seq<string>) {
    forall i, j :: 0 <= i < j < |s| ==> Less(s[i], s[j])
  }

  /** Inserting into a strictly sorted sequence of distinct strings. */
  function Insert(x: string, s: seq<string>): (r: seq<string>)
    requires Sorted(s) && x !in s
    ensures Sorted(r) && |r| == |s| + 1
    ensures forall y :: y in r <==> y == x || y in s
    decreases |s|
  {
    if |s| == 0 then [x]
    else
      LessTotal(x, s[0]);
      if Less(x, s[0]) then
        assert forall j :: 0 <= j < |s| ==> Less(x, s[j]) by {
          forall j | 0 < j < |s| ensures Less(x, s[j]) {
            LessTransitive(x, s[0], s[j]);
          }
        }
        [x] + s
      else
        var r := Insert(x, s[1..]);
        assert forall y :: y in r ==> Less(s[0], y) by {
          forall y | y in r ensures Less(s[0], y) {
            if y != x {
              var j :| 0 <= j < |s[1..]| && s[1..][j] == y;
              assert s[j + 1] == y;
            }
          }
        }
        [s[0]] + r
  }

  /** `sorted(...)` of a duplicate-free sequence: the same elements in
      increasing order. */
  function SortStrings(s: seq<string>): (r: seq<string>)
    requires NoDup(s)
    ensures Sorted(r) && |r| == |s|
    ensures forall y :: y in r <==> y in s
    decreases |s|
  {
    if |s| == 0 then []
    else
      assert forall j :: 1 <= j < |s| ==> s[j] != s[0];
      Insert(s[0], SortStrings(s[1..]))
  }

  /** The sorted order is determined by the elements alone, so the label
      does not depend on the order in which the sources were met. */
  lemma {:induction false} SortedUnique(a: seq<string>, b: seq<string>)
    requires Sorted(a) && Sorted(b)
    requires forall y :: y in a <==> y in b
    ensures a == b
    decreases |a|
  {
    if |a| > 0 {
      assert a[0] in b;
      if a[0] != b[0] {
        assert b[0] in b && b[0] in a;
        var i :| 0 <= i < |a| && a[i] == b[0];
        var j :| 0 <= j < |b| && b[j] == a[0];
        assert Less(a[0], b[0]) && Less(b[0], a[0]);
        LessAsymmetric(a[0], b[0]);
      }
      forall y | y in a[1..] ensures y in b[1..] {
        SortedTailMember(a, b, y);
      }
      forall y | y in b[1..] ensures y in a[1..] {
        SortedTailMember(b, a, y);
      }
      SortedUnique(a[1..], b[1..]);
    } else if |b| > 0 {
      HeadIsMember(b);
      assert false;
    }
  }

  lemma HeadIsMember(s: seq<string>)
    ensures |s| > 0 ==> s[0] in s
  {
  }

  lemma SortedTailMember(a: seq<string>, b: seq<string>, y: string)
    requires Sorted(a) && |a| > 0 && |b| > 0 && a[0] == b[0]
    requires forall z :: z in a <==> z in b
    requires y in a[1..]
    ensures y in b[1..]
  {
    var k :| 0 <= k < |a[1..]| && a[1..][k] == y;
    assert a[k + 1] == y;
    LessIrreflexive(y);
    assert y in b;
    var m :| 0 <= m < |b| && b[m] == y;
    assert b[1..][m - 1] == y;
  }

  /** The source label of a merged span. */
  function SourceLabel(tb: Textbound): string
    requires NoDup(tb.sources)
  {
    Join(SortStrings(tb.sources), ',')
  }

  /** The label depends only on the set of sources. */
  lemma SourceLabelOfSet(a: Textbound, b: Textbound)
    requires NoDup(a.sources) && NoDup(b.sources)
    requires Elements(a.sources) == Elements(b.sources)
    ensures SourceLabel(a) == SourceLabel(b)
  {
    assert forall y :: y in a.sources <==> y in Elements(a.sources);
    assert forall y :: y in b.sources <==> y in Elements(b.sources);
    SortedUnique(SortStrings(a.sources), SortStrings(b.sources));
  }

  /** `deduplicate_spans` with its last loop: every kept span's `source`
      becomes its sorted, comma-joined sources. */
  function DeduplicateSpansWithSources(spans: seq<Span>): (r: seq<Textbound>)
    ensures |r| == |Merge(spans)|
    ensures forall i :: 0 <= i < |r| ==>
      r[i].sources == Merge(spans)[i].sources && r[i].span.(source := Merge(spans)[i].span.source) == Merge(spans)[i].span
  {
    var M := Merge(spans);
    MergeSources(spans);
    seq(|M|, i requires 0 <= i < |M| =>
      Textbound(M[i].span.(source := SourceLabel(M[i])), M[i].sources))
  }

  // ---------------------------------------------------------------------
  // The files written per document

  /** The annotation label: the bare type when a span has exactly two
      sources, otherwise the type followed by `-` and the source label. */
  function Label(tb: Textbound): string {
    if |tb.sources| == 2 then tb.span.typ else tb.span.typ + "-" + tb.span.source
  }

  /** The textbound line numbered `n`, with the end offset made exclusive
      (without the newline `print` adds). */
  function TextboundLine(n: nat, tb: Textbound): string {
    Join(["T" + NatToString(n),
          Join([Label(tb), IntToString(tb.span.start), IntToString(tb.span.end + 1)], ' '),
          tb.span.text], '\t')
  }

  /** The `.ann` file: one textbound per merged span, numbered from 1. */
  function AnnLines(tbs: seq<Textbound>): (r: seq<string>)
    ensures |r| == |tbs|
  {
    seq(|tbs|, i requires 0 <= i < |tbs| => TextboundLine(i + 1, tbs[i]))
  }

  /** The `.txt` file: the text with every TAB made a newline, plus the
      newline `print` adds. */
  function TxtFile(text: string): (r: string)
    ensures |r| == |text| + 1 && r[|text|] == '\n' && '\t' !in r
  {
    seq(|text|, i requires 0 <= i < |text| => if text[i] == '\t' then '\n' else text[i]) + "\n"
  }

  /** A span whose offsets select its text in the document, and whose text
      has no TAB, selects the same text in the `.txt` file with the
      end-exclusive offsets of its line. */
  lemma TxtKeepsSpanText(text: string, s: Span)
    requires 0 <= s.start <= s.end < |text|
    requires text[s.start..s.end + 1] == s.text && '\t' !in s.text
    ensures TxtFile(text)[s.start..s.end + 1] == s.text
  {
    forall i | s.start <= i <= s.end ensures TxtFile(text)[i] == text[i] {
      assert text[i] == s.text[i - s.start];
    }
  }

  /** A list of distinct sources has as many elements as its set. */
  lemma {:induction false} ElementsCount(s: seq<string>)
    requires NoDup(s)
    ensures |Elements(s)| == |s|
    decreases |s|
  {
    if |s| > 0 {
      var init := s[..|s| - 1];
      assert NoDup(init) by {
        forall i, j | 0 <= i < j < |init| ensures init[i] != init[j] {
          assert init[i] == s[i] && init[j] == s[j];
        }
      }
      ElementsCount(init);
      assert s == init + [s[|s| - 1]];
      assert Elements(s) == Elements(init) + {s[|s| - 1]};
      forall j | 0 <= j < |init| ensures init[j] != s[|s| - 1] {
        assert init[j] == s[j];
      }
      assert s[|s| - 1] !in Elements(init);
    }
  }

  /** `convert_to_standoff` for one document: the `.txt` contents and the
      lines of the `.ann` file. */
  function ConvertDocument(text: string, spans: seq<Span>): (r: Result<(string, seq<string>)>)
    ensures r.Failure? <==> exists i :: 0 <= i < |spans| && |spans[i].typ| == 0
    ensures r.Failure? ==> r.error == IndexError
    ensures r.Success? ==> r.value.0 == TxtFile(text)
    ensures r.Success? ==> |r.value.1| == |Representatives(NormalizeTypes(spans).value)|
  {
    var normalized :- NormalizeTypes(spans);
    DeduplicateSpec(normalized);
    Success((TxtFile(text), AnnLines(DeduplicateSpansWithSources(normalized))))
  }

  /** The `i`-th deduplicated span with its source label: the `i`-th
      representative carrying its group's serials, and a label made from
      its group's distinct sources; the label is the bare type exactly when
      the group has two distinct sources. */
  lemma DeduplicatedEntry(spans: seq<Span>, i: nat)
    requires i < |Representatives(spans)|
    ensures var R, T := Representatives(spans), DeduplicateSpansWithSources(spans);
      && |T| == |R|
      && T[i].span.(source := R[i].source) == R[i].(serials := GroupSerials(spans, KeyOf(R[i])))
      && NoDup(T[i].sources) && Elements(T[i].sources) == GroupSources(spans, KeyOf(R[i]))
      && T[i].span.source == SourceLabel(T[i])
      && (Label(T[i]) == R[i].typ <==> |GroupSources(spans, KeyOf(R[i]))| == 2)
  {
    var R, M, T := Representatives(spans), Merge(spans), DeduplicateSpansWithSources(spans);
    DeduplicateSpec(spans);
    assert KeyOf(M[i].span) == KeyOf(R[i]);
    assert T[i] == Textbound(M[i].span.(source := SourceLabel(M[i])), M[i].sources);
    ElementsCount(T[i].sources);
    LabelTypeSuffix(T[i]);
  }

  /** The `.ann` lines of a converted document, line by line: the `i`-th
      is the textbound numbered `i + 1` of the `i`-th deduplicated span of
      the normalized spans. */
  lemma ConvertDocumentLines(text: string, spans: seq<Span>)
    ensures var r := ConvertDocument(text, spans);
      r.Success? ==>
        var N := NormalizeTypes(spans).value;
        var R, T := Representatives(N), DeduplicateSpansWithSources(N);
        && |T| == |R| == |r.value.1|
        && forall i :: 0 <= i < |R| ==>
             && r.value.1[i] == TextboundLine(i + 1, T[i])
             && T[i].span.(source := R[i].source) == R[i].(serials := GroupSerials(N, KeyOf(R[i])))
             && NoDup(T[i].sources) && Elements(T[i].sources) == GroupSources(N, KeyOf(R[i]))
             && T[i].span.source == SourceLabel(T[i])
             && (Label(T[i]) == R[i].typ <==> |GroupSources(N, KeyOf(R[i]))| == 2)
  {
    var r := ConvertDocument(text, spans);
    if r.Success? {
      var N := NormalizeTypes(spans).value;
      var R, T := Representatives(N), DeduplicateSpansWithSources(N);
      ConvertedLines(text, spans);
      forall i | 0 <= i < |R|
        ensures T[i].span.(source := R[i].source) == R[i].(serials := GroupSerials(N, KeyOf(R[i])))
        ensures NoDup(T[i].sources) && Elements(T[i].sources) == GroupSources(N, KeyOf(R[i]))
        ensures T[i].span.source == SourceLabel(T[i])
        ensures Label(T[i]) == R[i].typ <==> |GroupSources(N, KeyOf(R[i]))| == 2
      {
        DeduplicatedEntry(N, i);
      }
    }
  }

  /** The `.ann` lines are the numbered textbounds of the deduplicated
      normalized spans, one per representative. */
  lemma ConvertedLines(text: string, spans: seq<Span>)
    requires ConvertDocument(text, spans).Success?
    ensures var N := NormalizeTypes(spans).value;
      var lines, T := ConvertDocument(text, spans).value.1, DeduplicateSpansWithSources(N);
      && |T| == |Representatives(N)| == |lines|
      && forall i :: 0 <= i < |lines| ==> lines[i] == TextboundLine(i + 1, T[i])
  {
    var N := NormalizeTypes(spans).value;
    var T := DeduplicateSpansWithSources(N);
    var lines := AnnLines(T);
    assert |T| == |Representatives(N)| by {
      DeduplicateSpec(N);
    }
    assert ConvertDocument(text, spans) == Success((TxtFile(text), lines));
    forall i | 0 <= i < |lines| ensures lines[i] == TextboundLine(i + 1, T[i]) {
    }
  }

  /** A label with a source suffix is longer than the bare type. */
  lemma LabelTypeSuffix(tb: Textbound)
    ensures Label(tb) == tb.span.typ <==> |tb.sources| == 2
  {
    if |tb.sources| != 2 {
      assert |Label(tb)| > |tb.span.typ|;
    }
  }
}
