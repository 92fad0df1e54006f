/** Per-document preprocessing of one source's spans before comparison:
    validation against the document text, the type allow-list, and merging
    of spans with identical boundaries and type.
 */
module SpanPreprocess {
  import opened Wrappers
  import opened PyStrings
  import opened Seqs
  import opened SpanModel

  // ---------------------------------------------------------------------
  // Python slicing `s[i:j]`: negative bounds count from the end, and both
  // bounds are clamped to `[0, len(s)]`.

  function SliceBound(i: int, n: nat): (b: nat)
    ensures b <= n
  {
    if i < 0 then (if i + n < 0 then 0 else i + n) else if i > n then n else i
  }

  function PySlice(s: string, i: int, j: int): string {
    var lo := SliceBound(i, |s|);
    var hi := SliceBound(j, |s|);
    if lo < hi then s[lo..hi] else ""
  }

  /** The span's recorded text is what its offsets select in the document. */
  predicate TextAgrees(docText: string, s: Span) {
    PySlice(docText, s.start, s.end + 1) == s.text
  }

  /** `validate_spans`: keeps, in order, exactly the spans whose text
      agrees with the document. */
  function ValidateSpans(docText: string, spans: seq<Span>): (r: seq<Span>)
    ensures forall s :: s in r <==> s in spans && TextAgrees(docText, s)
    ensures IsSubseq(r, spans)
  {
    FilterIsSubseq(spans, (s: Span) => TextAgrees(docText, s));
    Filter(spans, (s: Span) => TextAgrees(docText, s))
  }

  /** For offsets inside the document, validation is plain substring
      equality of the inclusive range `[start, end]`. */
  lemma ValidatedInRange(docText: string, s: Span)
    requires 0 <= s.start <= s.end < |docText|
    ensures TextAgrees(docText, s) <==> docText[s.start..s.end + 1] == s.text
  {
  }

  /** A kept span with non-empty text lies inside the document once its
      offsets are non-negative: Python's clamping cannot make an
      out-of-range span agree with a text longer than the clamped slice. */
  lemma ValidatedSpanInside(docText: string, s: Span)
    requires TextAgrees(docText, s)
    requires 0 <= s.start <= s.end
    requires |s.text| == s.end - s.start + 1
    ensures s.end < |docText|
    ensures docText[s.start..s.end + 1] == s.text
  {
  }

  // ---------------------------------------------------------------------

  /** `filter_spans`: with no allow-list (absent or empty) every span is
      kept; otherwise the spans whose lower-cased type is listed. */
  function FilterSpans(spans: seq<Span>, types: Option<set<string>>): (r: seq<Span>)
    ensures types.None? || types.value == {} ==> r == spans
    ensures types.Some? && types.value != {} ==>
              forall s :: s in r <==> s in spans && Lower(s.typ) in types.value
    ensures IsSubseq(r, spans)
  {
    if types.None? || types.value == {} then
      SubseqRefl(spans);
      spans
    else
      FilterIsSubseq(spans, (s: Span) => Lower(s.typ) in types.value);
      Filter(spans, (s: Span) => Lower(s.typ) in types.value)
  }

  lemma {:induction false} SubseqRefl(s: seq<Span>)
    ensures IsSubseq(s, s)
    decreases |s|
  {
    if |s| > 0 {
      SubseqRefl(s[1..]);
    }
  }

  // ---------------------------------------------------------------------
  // Deduplication. The source walks the spans once, keeping the first
  // span of each `(start, end, type)` key and appending the serials of
  // every later span with that key to the kept one.

  type Key = (int, int, string)

  /** The grouping key; the type is compared case-sensitively here. */
  function KeyOf(s: Span): Key {
    (s.start, s.end, s.typ)
  }

  predicate KeyIn(k: Key, spans: seq<Span>) {
    exists i :: 0 <= i < |spans| && KeyOf(spans[i]) == k
  }

  function KeyIndex(spans: seq<Span>, k: Key): (r: Option<nat>)
    ensures r.Some? ==> r.value < |spans| && KeyOf(spans[r.value]) == k
    ensures r.None? <==> !KeyIn(k, spans)
    decreases |spans|
  {
    if |spans| == 0 then None
    else if KeyOf(spans[0]) == k then Some(0)
    else
      var r := KeyIndex(spans[1..], k);
      if r.None? then
        assert forall i :: 1 <= i < |spans| ==> spans[i] == spans[1..][i - 1];
        None
      else Some(r.value + 1)
  }

  /** One step of the loop: merge `s` into the kept span with its key, or
      keep it as a new representative. */
  function DedupStep(kept: seq<Span>, s: Span): seq<Span> {
    match KeyIndex(kept, KeyOf(s))
    case None => kept + [s]
    case Some(i) => kept[i := kept[i].(serials := kept[i].serials + s.serials)]
  }

  /** `deduplicate_spans`: the state after processing every span in order. */
  function DeduplicateSpans(spans: seq<Span>): seq<Span>
    decreases |spans|
  {
    if |spans| == 0 then []
    else DedupStep(DeduplicateSpans(spans[..|spans| - 1]), spans[|spans| - 1])
  }

  // Reference definition: representatives are the first spans of their
  // key, each carrying the serials of its whole group in input order.

  predicate IsFirst(spans: seq<Span>, i: nat)
    requires i < |spans|
  {
    forall j :: 0 <= j < i ==> KeyOf(spans[j]) != KeyOf(spans[i])
  }

  function Representatives(spans: seq<Span>): seq<Span>
    decreases |spans|
  {
    if |spans| == 0 then []
    else
      Representatives(spans[..|spans| - 1])
      + (if IsFirst(spans, |spans| - 1) then [spans[|spans| - 1]] else [])
  }

  function GroupSerials(spans: seq<Span>, k: Key): seq<string>
    decreases |spans|
  {
    if |spans| == 0 then []
    else
      GroupSerials(spans[..|spans| - 1], k)
      + (if KeyOf(spans[|spans| - 1]) == k then spans[|spans| - 1].serials else [])
  }

  function DedupSpec(spans: seq<Span>): seq<Span> {
    var reps := Representatives(spans);
    seq(|reps|, i requires 0 <= i < |reps| => reps[i].(serials := GroupSerials(spans, KeyOf(reps[i]))))
  }

  predicate DistinctKeys(spans: seq<Span>) {
    forall i, j :: 0 <= i < j < |spans| ==> KeyOf(spans[i]) != KeyOf(spans[j])
  }

  /** Representatives have distinct keys, and a key has a representative
      exactly when some span carries it. */
  lemma RepresentativesKeys(spans: seq<Span>)
    ensures DistinctKeys(Representatives(spans))
    ensures forall k :: KeyIn(k, Representatives(spans)) <==> KeyIn(k, spans)
  {
    RepresentativesKeySet(spans);
    RepresentativesDistinct(spans);
  }

  lemma RepresentativesKeySet(spans: seq<Span>)
    ensures forall k :: KeyIn(k, Representatives(spans)) <==> KeyIn(k, spans)
  {
    RepresentativesCover(spans);
    RepresentativesFromSpans(spans);
  }

  /** Every key of the input has a representative. */
  lemma {:induction false} RepresentativesCover(spans: seq<Span>)
    ensures forall k :: KeyIn(k, spans) ==> KeyIn(k, Representatives(spans))
    decreases |spans|
  {
    if |spans| > 0 {
      var init := spans[..|spans| - 1];
      var last := spans[|spans| - 1];
      RepresentativesCover(init);
      assert forall j :: 0 <= j < |init| ==> init[j] == spans[j];
      var reps := Representatives(init);
      forall k | KeyIn(k, spans) ensures KeyIn(k, Representatives(spans)) {
        var i :| 0 <= i < |spans| && KeyOf(spans[i]) == k;
        if i < |init| {
          assert KeyIn(k, init);
          var j :| 0 <= j < |reps| && KeyOf(reps[j]) == k;
          assert Representatives(spans)[j] == reps[j];
        } else if !IsFirst(spans, |spans| - 1) {
          var j :| 0 <= j < |spans| - 1 && KeyOf(spans[j]) == KeyOf(last);
          assert KeyIn(k, init);
          var j' :| 0 <= j' < |reps| && KeyOf(reps[j']) == k;
          assert Representatives(spans)[j'] == reps[j'];
        } else {
          assert Representatives(spans)[|reps|] == last;
        }
      }
    }
  }

  /** Every representative's key occurs in the input. */
  lemma {:induction false} RepresentativesFromSpans(spans: seq<Span>)
    ensures forall k :: KeyIn(k, Representatives(spans)) ==> KeyIn(k, spans)
    decreases |spans|
  {
    if |spans| > 0 {
      var init := spans[..|spans| - 1];
      RepresentativesFromSpans(init);
      assert forall j :: 0 <= j < |init| ==> init[j] == spans[j];
      var reps := Representatives(init);
      forall k | KeyIn(k, Representatives(spans)) ensures KeyIn(k, spans) {
        var j :| 0 <= j < |Representatives(spans)| && KeyOf(Representatives(spans)[j]) == k;
        if j < |reps| {
          assert Representatives(spans)[j] == reps[j];
          assert KeyIn(k, init);
        } else {
          assert KeyOf(spans[|spans| - 1]) == k;
        }
      }
    }
  }

  lemma {:induction false} RepresentativesDistinct(spans: seq<Span>)
    ensures DistinctKeys(Representatives(spans))
    decreases |spans|
  {
    if |spans| > 0 {
      var init := spans[..|spans| - 1];
      var last := spans[|spans| - 1];
      RepresentativesDistinct(init);
      RepresentativesKeySet(init);
      assert forall j :: 0 <= j < |init| ==> init[j] == spans[j];
      if IsFirst(spans, |spans| - 1) {
        assert !KeyIn(KeyOf(last), init);
      }
    }
  }

  lemma GroupSerialsAbsent(spans: seq<Span>, k: Key)
    requires !KeyIn(k, spans)
    ensures GroupSerials(spans, k) == []
    decreases |spans|
  {
    if |spans| > 0 {
      var init := spans[..|spans| - 1];
      assert forall j :: 0 <= j < |init| ==> init[j] == spans[j];
      GroupSerialsAbsent(init, k);
    }
  }

  /** The one-pass merge computes the reference grouping. */
  lemma {:induction false} DeduplicateSpansIsDedupSpec(spans: seq<Span>)
    ensures DeduplicateSpans(spans) == DedupSpec(spans)
    decreases |spans|
  {
    if |spans| > 0 {
      var init := spans[..|spans| - 1];
      DeduplicateSpansIsDedupSpec(init);
      DedupSpecSnoc(spans);
    }
  }

  lemma DedupSpecSnoc(spans: seq<Span>)
    requires |spans| > 0
    ensures DedupStep(DedupSpec(spans[..|spans| - 1]), spans[|spans| - 1]) == DedupSpec(spans)
  {
    var init := spans[..|spans| - 1];
    var last := spans[|spans| - 1];
    RepresentativesKeys(init);
    assert forall j :: 0 <= j < |init| ==> init[j] == spans[j];
    var D := DedupSpec(init);
    var reps := Representatives(init);
    assert forall i :: 0 <= i < |D| ==> KeyOf(D[i]) == KeyOf(reps[i]);
    match KeyIndex(D, KeyOf(last))
    case None =>
      assert !KeyIn(KeyOf(last), init) by {
        if KeyIn(KeyOf(last), init) {
          var j :| 0 <= j < |reps| && KeyOf(reps[j]) == KeyOf(last);
        }
      }
      DedupSpecNewKey(spans);
    case Some(i) =>
      assert KeyIn(KeyOf(last), init);
      DedupSpecOldKey(spans, i);
  }

  lemma DedupSpecNewKey(spans: seq<Span>)
    requires |spans| > 0
    requires !KeyIn(KeyOf(spans[|spans| - 1]), spans[..|spans| - 1])
    ensures DedupSpec(spans) == DedupSpec(spans[..|spans| - 1]) + [spans[|spans| - 1]]
  {
    var init := spans[..|spans| - 1];
    var last := spans[|spans| - 1];
    assert forall j :: 0 <= j < |init| ==> init[j] == spans[j];
    assert IsFirst(spans, |spans| - 1);
    var reps := Representatives(init);
    var D := DedupSpec(init);
    var S := DedupSpec(spans);
    assert Representatives(spans) == reps + [last];
    GroupSerialsAbsent(init, KeyOf(last));
    RepresentativesKeys(init);
    forall i | 0 <= i < |S| ensures S[i] == (D + [last])[i] {
      if i < |D| {
        assert KeyOf(reps[i]) != KeyOf(last) by {
          if KeyOf(reps[i]) == KeyOf(last) {
            assert false;
          }
        }
      } else {
        assert GroupSerials(spans, KeyOf(last)) == last.serials;
      }
    }
  }

  lemma DedupSpecOldKey(spans: seq<Span>, i: nat)
    requires |spans| > 0
    requires i < |DedupSpec(spans[..|spans| - 1])|
    requires KeyOf(DedupSpec(spans[..|spans| - 1])[i]) == KeyOf(spans[|spans| - 1])
    ensures var D := DedupSpec(spans[..|spans| - 1]);
      DedupSpec(spans) == D[i := D[i].(serials := D[i].serials + spans[|spans| - 1].serials)]
  {
    var init := spans[..|spans| - 1];
    var last := spans[|spans| - 1];
    assert forall j :: 0 <= j < |init| ==> init[j] == spans[j];
    var reps := Representatives(init);
    var D := DedupSpec(init);
    RepresentativesKeys(init);
    assert KeyOf(reps[i]) == KeyOf(last);
    assert !IsFirst(spans, |spans| - 1) by {
      assert KeyIn(KeyOf(last), reps);
      assert KeyIn(KeyOf(last), init);
      var j :| 0 <= j < |init| && KeyOf(init[j]) == KeyOf(last);
      assert KeyOf(spans[j]) == KeyOf(spans[|spans| - 1]);
    }
    assert Representatives(spans) == reps;
    var S := DedupSpec(spans);
    forall m | 0 <= m < |S|
      ensures S[m] == D[i := D[i].(serials := D[i].serials + last.serials)][m]
    {
      if m != i {
        assert KeyOf(reps[m]) != KeyOf(reps[i]);
      }
    }
  }

  /** `deduplicate_spans` keeps one span per key, in order of first
      appearance, each holding its group's serials in input order. */
  lemma DeduplicateSpansSpec(spans: seq<Span>)
    ensures var r := DeduplicateSpans(spans);
      && DistinctKeys(r)
      && (forall k :: KeyIn(k, r) <==> KeyIn(k, spans))
      && |r| == |Representatives(spans)|
      && forall i :: 0 <= i < |r| ==>
           r[i] == Representatives(spans)[i].(serials := GroupSerials(spans, KeyOf(r[i])))
  {
    DeduplicateSpansIsDedupSpec(spans);
    RepresentativesKeys(spans);
    var r := DeduplicateSpans(spans);
    var reps := Representatives(spans);
    assert forall i :: 0 <= i < |r| ==> KeyOf(r[i]) == KeyOf(reps[i]);
    forall k ensures KeyIn(k, r) <==> KeyIn(k, reps) {
      if KeyIn(k, r) {
        var i :| 0 <= i < |r| && KeyOf(r[i]) == k;
        assert KeyOf(reps[i]) == k;
      }
      if KeyIn(k, reps) {
        var i :| 0 <= i < |reps| && KeyOf(reps[i]) == k;
        assert KeyOf(r[i]) == k;
      }
    }
  }

  /** `x` occurs in `spans` at a position that is first for its key. */
  ghost predicate FirstOfKey(spans: seq<Span>, x: Span) {
    exists j :: 0 <= j < |spans| && spans[j] == x && IsFirst(spans, j)
  }

  /** A first position stays first when the sequence is extended. */
  lemma FirstOfKeyExtend(init: seq<Span>, x: Span, y: Span)
    requires FirstOfKey(init, x)
    ensures FirstOfKey(init + [y], x)
  {
    var j :| 0 <= j < |init| && init[j] == x && IsFirst(init, j);
    assert (init + [y])[j] == x;
    assert IsFirst(init + [y], j);
  }

  /** Every representative is the first span of its key in the input. */
  lemma {:induction false} RepresentativesAreFirst(spans: seq<Span>)
    ensures forall i :: 0 <= i < |Representatives(spans)| ==> FirstOfKey(spans, Representatives(spans)[i])
    decreases |spans|
  {
    if |spans| > 0 {
      var init := spans[..|spans| - 1];
      var last := spans[|spans| - 1];
      assert init + [last] == spans;
      RepresentativesAreFirst(init);
      var reps := Representatives(init);
      forall i | 0 <= i < |Representatives(spans)|
        ensures FirstOfKey(spans, Representatives(spans)[i])
      {
        if i < |reps| {
          assert Representatives(spans)[i] == reps[i];
          FirstOfKeyExtend(init, reps[i], last);
        } else {
          assert IsFirst(spans, |spans| - 1);
          assert spans[|spans| - 1] == Representatives(spans)[i];
        }
      }
    }
  }

  /** The representatives keep the input order. */
  lemma {:induction false} RepresentativesInOrder(spans: seq<Span>)
    ensures IsSubseq(Representatives(spans), spans)
    decreases |spans|
  {
    if |spans| > 0 {
      var init := spans[..|spans| - 1];
      RepresentativesInOrder(init);
      SubseqSnoc(Representatives(init), init, spans[|spans| - 1], IsFirst(spans, |spans| - 1));
      assert init + [spans[|spans| - 1]] == spans;
    } else {
      assert Representatives(spans) == [];
    }
  }

  lemma {:induction false} SubseqSnoc(a: seq<Span>, b: seq<Span>, x: Span, take: bool)
    requires IsSubseq(a, b)
    ensures IsSubseq(a + (if take then [x] else []), b + [x])
    decreases |b|
  {
    if |a| == 0 {
      if take {
        SubseqSingle(b, x);
        assert a + [x] == [x];
      }
    } else {
      assert (a + (if take then [x] else []))[0] == a[0];
      assert (b + [x])[1..] == b[1..] + [x];
      assert (a + (if take then [x] else []))[1..] == a[1..] + (if take then [x] else []);
      if a[0] == b[0] {
        SubseqSnoc(a[1..], b[1..], x, take);
      } else {
        SubseqSnoc(a, b[1..], x, take);
      }
    }
  }

  lemma {:induction false} SubseqSingle(b: seq<Span>, x: Span)
    ensures IsSubseq([x], b + [x])
    decreases |b|
  {
    if |b| > 0 {
      assert (b + [x])[1..] == b[1..] + [x];
      SubseqSingle(b[1..], x);
      if b[0] == x {
        assert [x][1..] == [];
      }
    } else {
      assert [x][1..] == [];
    }
  }
}
