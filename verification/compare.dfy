/** `compare_document_spans`: the sweep's log of compared pairs booked
    into fresh statistics, followed by the spans left unmatched.

    A compared pair `(s1, s2)` (span of `source1` first) is a true
    positive when the spans match exactly or, in overlap mode, when they
    overlap with matching type; it then books one TP in each direction,
    keyed by each span's own text, and marks both spans matched. A pair
    that is not a true positive but overlaps with matching type goes to the
    overlap table only. Every span left unmatched is one FN for its own
    direction and one FP for the reverse direction.

    The main theorem states the result without the sweep: the true
    positives are the corresponding pairs among all cross pairs, and the
    false negatives of a side are its spans without a corresponding span
    on the other side.
 */
module SpanCompare {
  import opened Wrappers
  import opened Seqs
  import opened SpanModel
  import opened SpanSweep
  import opened SpanStats

  /** Whether a compared pair counts as a true positive. */
  predicate Corresponds(overlap: bool, s1: Span, s2: Span) {
    Matches(s1, s2) || (overlap && OverlapMatches(s1, s2))
  }

  function CorrespondsP(overlap: bool): ((Span, Span)) -> bool {
    (p: (Span, Span)) => Corresponds(overlap, p.0, p.1)
  }

  function Unmatched(matched: set<Span>): Span -> bool {
    s => s !in matched
  }

  /** The two directions of a comparison. */
  function Both(source1: string, source2: string): set<Pair> {
    {(source1, source2), (source2, source1)}
  }

  /** The statistics being built and the sets `matched_s1`, `matched_s2`. */
  datatype Booking = Booking(stats: Stats, matched1: set<Span>, matched2: set<Span>)

  /** The body of the comparison loop for one oriented pair. */
  function BookPair(b: Booking, source1: string, source2: string, overlap: bool, p: (Span, Span)): Booking {
    var (s1, s2) := p;
    if Corresponds(overlap, s1, s2) then
      Booking(AddTp(AddTp(b.stats, source1, source2, s1.text), source2, source1, s2.text),
              b.matched1 + {s1}, b.matched2 + {s2})
    else if OverlapMatches(s1, s2) then
      b.(stats := AddOverlap(b.stats, source1, source2, s1.text, s2.text))
    else
      b
  }

  /** Booking every pair of the log, in comparison order. */
  function BookLog(b: Booking, source1: string, source2: string, overlap: bool, L: seq<(Span, Span)>): Booking
    decreases |L|
  {
    if |L| == 0 then b
    else BookLog(BookPair(b, source1, source2, overlap, L[0]), source1, source2, overlap, L[1..])
  }

  /** The unmatched spans of the side whose source is `own`: one FP for
      `(other, own)` and one FN for `(own, other)` each. */
  function BookUnmatched(st: Stats, own: string, other: string, spans: seq<Span>, matched: set<Span>): Stats
    decreases |spans|
  {
    if |spans| == 0 then st
    else
      var s := spans[0];
      var st' := if s in matched then st else AddFn(AddFp(st, other, own, s.text), own, other, s.text);
      BookUnmatched(st', own, other, spans[1..], matched)
  }

  /** The log of the sweep over the boundaries of both sides. */
  function SweepLogOf(source1: string, source2: string, spans1: seq<Span>, spans2: seq<Span>)
    : Option<seq<(Span, Span)>>
  {
    Sweep(Sides(source1, source2, spans2), SortEvents(Boundaries(spans1 + spans2)), [])
  }

  /** Booking a log into fresh statistics, then the unmatched spans of the
      first side, then those of the second. */
  function Booked(source1: string, source2: string, spans1: seq<Span>, spans2: seq<Span>, overlap: bool,
                  L: seq<(Span, Span)>): Stats
  {
    var b := BookLog(Booking(NewStats(source1, source2), {}, {}), source1, source2, overlap, L);
    var st := BookUnmatched(b.stats, source1, source2, spans1, b.matched1);
    BookUnmatched(st, source2, source1, spans2, b.matched2)
  }

  /** `compare_document_spans`; `KeyError` when the sweep closes a span
      that is not open. */
  function CompareDocumentSpans(source1: string, source2: string, spans1: seq<Span>, spans2: seq<Span>,
                                overlap: bool): Result<Stats>
  {
    match SweepLogOf(source1, source2, spans1, spans2)
    case None => Failure(KeyError)
    case Some(L) => Success(Booked(source1, source2, spans1, spans2, overlap, L))
  }

  // ---------------------------------------------------------------------
  // The reference: every cross pair, compared naively.

  /** All pairs `(x, y)` with `x` from `xs` and `y` from `ys`, the
      quadratic comparison the sweep avoids. */
  function CrossPairs(xs: seq<Span>, ys: seq<Span>): (r: seq<(Span, Span)>)
    ensures forall p :: p in r <==> p.0 in xs && p.1 in ys
    decreases |xs|
  {
    if |xs| == 0 then []
    else
      var row := seq(|ys|, i requires 0 <= i < |ys| => (xs[0], ys[i]));
      assert forall p :: p in row <==> p.0 == xs[0] && p.1 in ys by {
        forall p: (Span, Span) | p.0 == xs[0] && p.1 in ys ensures p in row {
          var i :| 0 <= i < |ys| && ys[i] == p.1;
          assert row[i] == p;
        }
      }
      assert forall x :: x in xs <==> x == xs[0] || x in xs[1..] by {
        assert xs == [xs[0]] + xs[1..];
      }
      row + CrossPairs(xs[1..], ys)
  }

  /** The true positives the comparison reports. */
  function TruePositives(overlap: bool, spans1: seq<Span>, spans2: seq<Span>): nat {
    CountIf(CrossPairs(spans1, spans2), CorrespondsP(overlap))
  }

  /** A span of the first side with a corresponding span on the second. */
  predicate HasPartner1(overlap: bool, spans2: seq<Span>, s: Span) {
    exists y :: y in spans2 && Corresponds(overlap, s, y)
  }

  /** A span of the second side with a corresponding span on the first. */
  predicate HasPartner2(overlap: bool, spans1: seq<Span>, s: Span) {
    exists x :: x in spans1 && Corresponds(overlap, x, s)
  }

  function Lonely1(overlap: bool, spans1: seq<Span>, spans2: seq<Span>): nat {
    CountIf(spans1, s => !HasPartner1(overlap, spans2, s))
  }

  function Lonely2(overlap: bool, spans1: seq<Span>, spans2: seq<Span>): nat {
    CountIf(spans2, s => !HasPartner2(overlap, spans1, s))
  }

  // ---------------------------------------------------------------------
  // The bookkeeping folds.

  /** The spans of each side that some true-positive pair of `L` marks. */
  function MarkedFirst(overlap: bool, L: seq<(Span, Span)>): set<Span> {
    set p | p in L && Corresponds(overlap, p.0, p.1) :: p.0
  }

  function MarkedSecond(overlap: bool, L: seq<(Span, Span)>): set<Span> {
    set p | p in L && Corresponds(overlap, p.0, p.1) :: p.1
  }

  /** One pair: a true positive adds one TP in each direction; nothing
      else touches a scalar counter. */
  lemma BookPairCount(b: Booking, source1: string, source2: string, overlap: bool, p: (Span, Span),
                      k: Kind, q: Pair)
    requires source1 != source2
    ensures Count(BookPair(b, source1, source2, overlap, p).stats, k, q)
         == Count(b.stats, k, q) + (if k == TP && q in Both(source1, source2) && Corresponds(overlap, p.0, p.1) then 1 else 0)
  {
  }

  lemma BookPairSources(b: Booking, source1: string, source2: string, overlap: bool, p: (Span, Span))
    ensures Sources(BookPair(b, source1, source2, overlap, p).stats)
         == Sources(b.stats) + (if Corresponds(overlap, p.0, p.1) then Both(source1, source2) else {})
  {
  }

  /** The log: both TP counters grow by the number of true-positive pairs
      and the other counters are untouched. */
  lemma {:induction false} BookLogCount(b: Booking, source1: string, source2: string, overlap: bool,
                                        L: seq<(Span, Span)>, k: Kind, q: Pair)
    requires source1 != source2
    ensures Count(BookLog(b, source1, source2, overlap, L).stats, k, q)
         == Count(b.stats, k, q) + (if k == TP && q in Both(source1, source2) then CountIf(L, CorrespondsP(overlap)) else 0)
    decreases |L|
  {
    if |L| > 0 {
      BookPairCount(b, source1, source2, overlap, L[0], k, q);
      BookLogCount(BookPair(b, source1, source2, overlap, L[0]), source1, source2, overlap, L[1..], k, q);
    }
  }

  /** Both directions become sources exactly when the log has a true
      positive. */
  lemma {:induction false} BookLogSources(b: Booking, source1: string, source2: string, overlap: bool,
                                          L: seq<(Span, Span)>)
    ensures Sources(BookLog(b, source1, source2, overlap, L).stats)
         == Sources(b.stats) + (if CountIf(L, CorrespondsP(overlap)) > 0 then Both(source1, source2) else {})
    decreases |L|
  {
    if |L| > 0 {
      BookPairSources(b, source1, source2, overlap, L[0]);
      BookLogSources(BookPair(b, source1, source2, overlap, L[0]), source1, source2, overlap, L[1..]);
    }
  }

  /** The spans marked matched are those of the true-positive pairs. */
  lemma {:induction false} BookLogMarked1(b: Booking, source1: string, source2: string, overlap: bool,
                                          L: seq<(Span, Span)>)
    ensures BookLog(b, source1, source2, overlap, L).matched1 == b.matched1 + MarkedFirst(overlap, L)
    decreases |L|
  {
    if |L| > 0 {
      var b' := BookPair(b, source1, source2, overlap, L[0]);
      assert b'.matched1 == b.matched1 + (if Corresponds(overlap, L[0].0, L[0].1) then {L[0].0} else {});
      BookLogMarked1(b', source1, source2, overlap, L[1..]);
      MarkedFirstSplit(overlap, L);
    } else {
      assert MarkedFirst(overlap, L) == {};
    }
  }

  lemma {:induction false} BookLogMarked2(b: Booking, source1: string, source2: string, overlap: bool,
                                          L: seq<(Span, Span)>)
    ensures BookLog(b, source1, source2, overlap, L).matched2 == b.matched2 + MarkedSecond(overlap, L)
    decreases |L|
  {
    if |L| > 0 {
      var b' := BookPair(b, source1, source2, overlap, L[0]);
      assert b'.matched2 == b.matched2 + (if Corresponds(overlap, L[0].0, L[0].1) then {L[0].1} else {});
      BookLogMarked2(b', source1, source2, overlap, L[1..]);
      MarkedSecondSplit(overlap, L);
    } else {
      assert MarkedSecond(overlap, L) == {};
    }
  }

  lemma MarkedFirstSplit(overlap: bool, L: seq<(Span, Span)>)
    requires |L| > 0
    ensures MarkedFirst(overlap, L)
         == (if Corresponds(overlap, L[0].0, L[0].1) then {L[0].0} else {}) + MarkedFirst(overlap, L[1..])
  {
    assert forall p :: p in L <==> p == L[0] || p in L[1..] by {
      assert L == [L[0]] + L[1..];
    }
  }

  lemma MarkedSecondSplit(overlap: bool, L: seq<(Span, Span)>)
    requires |L| > 0
    ensures MarkedSecond(overlap, L)
         == (if Corresponds(overlap, L[0].0, L[0].1) then {L[0].1} else {}) + MarkedSecond(overlap, L[1..])
  {
    assert forall p :: p in L <==> p == L[0] || p in L[1..] by {
      assert L == [L[0]] + L[1..];
    }
  }

  /** The unmatched spans of one side: FN for its own direction and FP for
      the reverse grow by their number; nothing else changes. */
  lemma {:induction false} BookUnmatchedCount(st: Stats, own: string, other: string, spans: seq<Span>,
                                              matched: set<Span>, k: Kind, q: Pair)
    ensures Count(BookUnmatched(st, own, other, spans, matched), k, q)
         == Count(st, k, q) + (if (k, q) == (FN, (own, other)) || (k, q) == (FP, (other, own))
                               then CountIf(spans, Unmatched(matched)) else 0)
    decreases |spans|
  {
    if |spans| > 0 {
      var s := spans[0];
      var st' := if s in matched then st else AddFn(AddFp(st, other, own, s.text), own, other, s.text);
      BookUnmatchedCount(st', own, other, spans[1..], matched, k, q);
    }
  }

  lemma {:induction false} BookUnmatchedSources(st: Stats, own: string, other: string, spans: seq<Span>,
                                                matched: set<Span>)
    ensures Sources(BookUnmatched(st, own, other, spans, matched))
         == Sources(st) + (if CountIf(spans, Unmatched(matched)) > 0 then Both(own, other) else {})
    decreases |spans|
  {
    if |spans| > 0 {
      var s := spans[0];
      var st' := if s in matched then st else AddFn(AddFp(st, other, own, s.text), own, other, s.text);
      BookUnmatchedSources(st', own, other, spans[1..], matched);
    }
  }

  /** Unmatched spans never reach the overlap table. */
  lemma {:induction false} BookUnmatchedOverlaps(st: Stats, own: string, other: string, spans: seq<Span>,
                                                 matched: set<Span>)
    ensures BookUnmatched(st, own, other, spans, matched).overlaps == st.overlaps
    decreases |spans|
  {
    if |spans| > 0 {
      var s := spans[0];
      var st' := if s in matched then st else AddFn(AddFp(st, other, own, s.text), own, other, s.text);
      BookUnmatchedOverlaps(st', own, other, spans[1..], matched);
    }
  }

  // ---------------------------------------------------------------------
  // The comparison against the reference.

  /** The counters the comparison should produce, stated without the
      sweep: TP is symmetric, and each side's spans without a partner are
      its FN and the other direction's FP. */
  function ExpectedCount(overlap: bool, source1: string, source2: string, spans1: seq<Span>,
                         spans2: seq<Span>, k: Kind, q: Pair): nat
  {
    var lonely1 := Lonely1(overlap, spans1, spans2);
    var lonely2 := Lonely2(overlap, spans1, spans2);
    match k
    case TP => if q in Both(source1, source2) then TruePositives(overlap, spans1, spans2) else 0
    case FN => if q == (source1, source2) then lonely1 else if q == (source2, source1) then lonely2 else 0
    case FP => if q == (source2, source1) then lonely1 else if q == (source1, source2) then lonely2 else 0
  }

  /** A true positive is a pair of overlapping spans. */
  lemma CorrespondsOverlaps(overlap: bool, x: Span, y: Span)
    requires WellFormed(x) && WellFormed(y)
    requires Corresponds(overlap, x, y)
    ensures Overlaps(x, y)
  {
  }

  lemma NoDupHalves<T>(a: seq<T>, b: seq<T>)
    requires NoDup(a + b)
    ensures NoDup(a) && NoDup(b)
    ensures forall x :: x in a ==> x !in b
  {
    forall i, j | 0 <= i < j < |a| ensures a[i] != a[j] {
      assert a[i] == (a + b)[i] && a[j] == (a + b)[j];
    }
    forall i, j | 0 <= i < j < |b| ensures b[i] != b[j] {
      assert b[i] == (a + b)[|a| + i] && b[j] == (a + b)[|a| + j];
    }
    forall x | x in a ensures x !in b {
      var i :| 0 <= i < |a| && a[i] == x;
      if j :| 0 <= j < |b| && b[j] == x {
        assert (a + b)[i] == (a + b)[|a| + j];
      }
    }
  }

  lemma {:induction false} CrossPairsNoDup(xs: seq<Span>, ys: seq<Span>)
    requires NoDup(xs) && NoDup(ys)
    ensures NoDup(CrossPairs(xs, ys))
    decreases |xs|
  {
    if |xs| > 0 {
      var row := seq(|ys|, i requires 0 <= i < |ys| => (xs[0], ys[i]));
      assert NoDup(row) by {
        forall i, j | 0 <= i < j < |row| ensures row[i] != row[j] {
          assert row[i].1 == ys[i] && row[j].1 == ys[j];
        }
      }
      assert NoDup(xs[1..]) by {
        forall i, j | 0 <= i < j < |xs[1..]| ensures xs[1..][i] != xs[1..][j] {
          assert xs[1..][i] == xs[i + 1] && xs[1..][j] == xs[j + 1];
        }
      }
      CrossPairsNoDup(xs[1..], ys);
      forall p | p in row ensures p !in CrossPairs(xs[1..], ys) {
        assert p.0 == xs[0];
      }
      NoDupAppend(row, CrossPairs(xs[1..], ys));
    }
  }

  /** On the inputs the comparison accepts, the sweep's log holds exactly
      the overlapping cross pairs, each once. */
  lemma SweepLog(source1: string, source2: string, spans1: seq<Span>, spans2: seq<Span>)
    requires NoDup(spans1 + spans2) && forall s :: s in spans1 + spans2 ==> WellFormed(s)
    requires source1 != source2
    ensures var L := Sweep(Sides(source1, source2, spans2), SortEvents(Boundaries(spans1 + spans2)), []);
      && L.Some?
      && NoDup(L.value)
      && forall p :: p in L.value <==> p.0 in spans1 && p.1 in spans2 && Overlaps(p.0, p.1)
  {
    var sd := Sides(source1, source2, spans2);
    var all := spans1 + spans2;
    SweepReportsCrossOverlaps(sd, all, SortEvents(Boundaries(all)));
    NoDupHalves(spans1, spans2);
  }

  /** Counting, with any predicate that only holds of overlapping pairs,
      over the log is counting over all cross pairs. */
  lemma LogCountIf(L: seq<(Span, Span)>, spans1: seq<Span>, spans2: seq<Span>, P: ((Span, Span)) -> bool)
    requires NoDup(L) && NoDup(spans1) && NoDup(spans2)
    requires forall p :: p in L <==> p.0 in spans1 && p.1 in spans2 && Overlaps(p.0, p.1)
    requires forall p: (Span, Span) :: p.0 in spans1 && p.1 in spans2 && P(p) ==> Overlaps(p.0, p.1)
    ensures CountIf(L, P) == CountIf(CrossPairs(spans1, spans2), P)
  {
    var C := CrossPairs(spans1, spans2);
    CrossPairsNoDup(spans1, spans2);
    var a := Filter(L, P);
    var b := Filter(C, P);
    FilterNoDup(L, P);
    FilterNoDup(C, P);
    SameElementsPermutation(a, b);
    assert |a| == |multiset(a)| == |multiset(b)| == |b|;
  }

  /** Counting the true positives of the log is counting them among all
      cross pairs. */
  lemma LogTruePositives(overlap: bool, L: seq<(Span, Span)>, spans1: seq<Span>, spans2: seq<Span>)
    requires NoDup(L) && NoDup(spans1) && NoDup(spans2)
    requires forall s :: s in spans1 + spans2 ==> WellFormed(s)
    requires forall p :: p in L <==> p.0 in spans1 && p.1 in spans2 && Overlaps(p.0, p.1)
    ensures CountIf(L, CorrespondsP(overlap)) == TruePositives(overlap, spans1, spans2)
  {
    forall p: (Span, Span) | p.0 in spans1 && p.1 in spans2 && CorrespondsP(overlap)(p) ensures Overlaps(p.0, p.1) {
      CorrespondsOverlaps(overlap, p.0, p.1);
    }
    LogCountIf(L, spans1, spans2, CorrespondsP(overlap));
  }

  /** A span of the first side is marked exactly when it has a partner. */
  lemma MarkedFirstPartners(overlap: bool, L: seq<(Span, Span)>, spans1: seq<Span>, spans2: seq<Span>, s: Span)
    requires forall s :: s in spans1 + spans2 ==> WellFormed(s)
    requires forall p :: p in L <==> p.0 in spans1 && p.1 in spans2 && Overlaps(p.0, p.1)
    requires s in spans1
    ensures s in MarkedFirst(overlap, L) <==> HasPartner1(overlap, spans2, s)
  {
    if HasPartner1(overlap, spans2, s) {
      var y :| y in spans2 && Corresponds(overlap, s, y);
      CorrespondsOverlaps(overlap, s, y);
      assert (s, y) in L;
    }
  }

  lemma MarkedSecondPartners(overlap: bool, L: seq<(Span, Span)>, spans1: seq<Span>, spans2: seq<Span>, s: Span)
    requires forall s :: s in spans1 + spans2 ==> WellFormed(s)
    requires forall p :: p in L <==> p.0 in spans1 && p.1 in spans2 && Overlaps(p.0, p.1)
    requires s in spans2
    ensures s in MarkedSecond(overlap, L) <==> HasPartner2(overlap, spans1, s)
  {
    if HasPartner2(overlap, spans1, s) {
      var x :| x in spans1 && Corresponds(overlap, x, s);
      CorrespondsOverlaps(overlap, x, s);
      assert (x, s) in L;
    }
  }

  lemma LogLonely(overlap: bool, L: seq<(Span, Span)>, spans1: seq<Span>, spans2: seq<Span>)
    requires forall s :: s in spans1 + spans2 ==> WellFormed(s)
    requires forall p :: p in L <==> p.0 in spans1 && p.1 in spans2 && Overlaps(p.0, p.1)
    ensures CountIf(spans1, Unmatched(MarkedFirst(overlap, L))) == Lonely1(overlap, spans1, spans2)
    ensures CountIf(spans2, Unmatched(MarkedSecond(overlap, L))) == Lonely2(overlap, spans1, spans2)
  {
    forall s | s in spans1 ensures Unmatched(MarkedFirst(overlap, L))(s) == !HasPartner1(overlap, spans2, s) {
      MarkedFirstPartners(overlap, L, spans1, spans2, s);
    }
    CountIfCongruent(spans1, Unmatched(MarkedFirst(overlap, L)), s => !HasPartner1(overlap, spans2, s));
    forall s | s in spans2 ensures Unmatched(MarkedSecond(overlap, L))(s) == !HasPartner2(overlap, spans1, s) {
      MarkedSecondPartners(overlap, L, spans1, spans2, s);
    }
    CountIfCongruent(spans2, Unmatched(MarkedSecond(overlap, L)), s => !HasPartner2(overlap, spans1, s));
  }

  /** The counters after booking a log, in terms of the log's true
      positives and the spans they leave unmarked. */
  lemma BookedCountFormula(source1: string, source2: string, spans1: seq<Span>, spans2: seq<Span>,
                           overlap: bool, L: seq<(Span, Span)>, k: Kind, q: Pair)
    requires source1 != source2
    ensures Count(Booked(source1, source2, spans1, spans2, overlap, L), k, q)
         == (if k == TP && q in Both(source1, source2) then CountIf(L, CorrespondsP(overlap)) else 0)
          + (if (k, q) == (FN, (source1, source2)) || (k, q) == (FP, (source2, source1))
             then CountIf(spans1, Unmatched(MarkedFirst(overlap, L))) else 0)
          + (if (k, q) == (FN, (source2, source1)) || (k, q) == (FP, (source1, source2))
             then CountIf(spans2, Unmatched(MarkedSecond(overlap, L))) else 0)
  {
    var b0 := Booking(NewStats(source1, source2), {}, {});
    var b := BookLog(b0, source1, source2, overlap, L);
    var st := BookUnmatched(b.stats, source1, source2, spans1, b.matched1);
    BookLogCount(b0, source1, source2, overlap, L, k, q);
    BookLogMarked1(b0, source1, source2, overlap, L);
    BookLogMarked2(b0, source1, source2, overlap, L);
    assert b.matched1 == MarkedFirst(overlap, L);
    assert b.matched2 == MarkedSecond(overlap, L);
    BookUnmatchedCount(b.stats, source1, source2, spans1, b.matched1, k, q);
    BookUnmatchedCount(st, source2, source1, spans2, b.matched2, k, q);
  }

  /** The bookkeeping after the sweep, for any log holding exactly the
      overlapping cross pairs. */
  lemma BookedCounts(source1: string, source2: string, spans1: seq<Span>, spans2: seq<Span>,
                     overlap: bool, L: seq<(Span, Span)>, k: Kind, q: Pair)
    requires NoDup(L) && NoDup(spans1) && NoDup(spans2)
    requires forall s :: s in spans1 + spans2 ==> WellFormed(s)
    requires forall p :: p in L <==> p.0 in spans1 && p.1 in spans2 && Overlaps(p.0, p.1)
    requires source1 != source2
    ensures Count(Booked(source1, source2, spans1, spans2, overlap, L), k, q)
         == ExpectedCount(overlap, source1, source2, spans1, spans2, k, q)
  {
    BookedCountFormula(source1, source2, spans1, spans2, overlap, L, k, q);
    LogTruePositives(overlap, L, spans1, spans2);
    LogLonely(overlap, L, spans1, spans2);
  }

  /** The main theorem: with distinct sources, distinct well-formed spans,
      the comparison succeeds and every counter holds its reference value. */
  lemma CompareCounts(source1: string, source2: string, spans1: seq<Span>, spans2: seq<Span>,
                      overlap: bool, k: Kind, q: Pair)
    requires NoDup(spans1 + spans2) && forall s :: s in spans1 + spans2 ==> WellFormed(s)
    requires source1 != source2
    ensures var r := CompareDocumentSpans(source1, source2, spans1, spans2, overlap);
      r.Success? && Count(r.value, k, q) == ExpectedCount(overlap, source1, source2, spans1, spans2, k, q)
  {
    SweepLog(source1, source2, spans1, spans2);
    NoDupHalves(spans1, spans2);
    var L := SweepLogOf(source1, source2, spans1, spans2).value;
    BookedCounts(source1, source2, spans1, spans2, overlap, L, k, q);
  }

  /** The comparison fails, with `KeyError`, exactly when some span ends
      before it starts: its end event then sorts before its start event. */
  lemma CompareFailsIffInverted(source1: string, source2: string, spans1: seq<Span>, spans2: seq<Span>,
                                overlap: bool)
    requires NoDup(spans1 + spans2)
    ensures var r := CompareDocumentSpans(source1, source2, spans1, spans2, overlap);
      (r.Failure? <==> exists s :: s in spans1 + spans2 && !WellFormed(s))
      && (r.Failure? ==> r.error == KeyError)
  {
    var all := spans1 + spans2;
    SweepSucceedsIffWellFormed(Sides(source1, source2, spans2), all, SortEvents(Boundaries(all)));
  }

  /** Overlap mode only adds true positives. */
  lemma OverlapModeFindsMore(spans1: seq<Span>, spans2: seq<Span>)
    ensures TruePositives(false, spans1, spans2) <= TruePositives(true, spans1, spans2)
    ensures Lonely1(true, spans1, spans2) <= Lonely1(false, spans1, spans2)
    ensures Lonely2(true, spans1, spans2) <= Lonely2(false, spans1, spans2)
  {
    CountIfMonotone(CrossPairs(spans1, spans2), CorrespondsP(false), CorrespondsP(true));
    CountIfMonotone(spans1, s => !HasPartner1(true, spans2, s), s => !HasPartner1(false, spans2, s));
    CountIfMonotone(spans2, s => !HasPartner2(true, spans1, s), s => !HasPartner2(false, spans1, s));
  }

  lemma {:induction false} NothingMatched(spans: seq<Span>)
    ensures CountIf(spans, Unmatched({})) == |spans|
    decreases |spans|
  {
    if |spans| > 0 {
      NothingMatched(spans[1..]);
    }
  }

  /** Booking an empty log: every span is unmatched. */
  lemma BookedEmptyLog(source: string, spans1: seq<Span>, spans2: seq<Span>, overlap: bool, k: Kind)
    ensures Count(Booked(source, source, spans1, spans2, overlap, []), k, (source, source))
         == if k == TP then 0 else |spans1| + |spans2|
  {
    var b := Booking(NewStats(source, source), {}, {});
    assert BookLog(b, source, source, overlap, []) == b;
    var st := BookUnmatched(b.stats, source, source, spans1, {});
    BookUnmatchedCount(b.stats, source, source, spans1, {}, k, (source, source));
    BookUnmatchedCount(st, source, source, spans2, {}, k, (source, source));
    NothingMatched(spans1);
    NothingMatched(spans2);
  }

  /** A document compared with itself under one source name: the sweep
      compares nothing, so every span counts as both FN and FP. */
  lemma CompareSameSource(source: string, spans1: seq<Span>, spans2: seq<Span>, overlap: bool, k: Kind)
    requires NoDup(spans1 + spans2) && forall s :: s in spans1 + spans2 ==> WellFormed(s)
    ensures var r := CompareDocumentSpans(source, source, spans1, spans2, overlap);
      r.Success? && Count(r.value, k, (source, source)) == if k == TP then 0 else |spans1| + |spans2|
  {
    CompareFailsIffInverted(source, source, spans1, spans2, overlap);
    SweepSameSource(Sides(source, source, spans2), SortEvents(Boundaries(spans1 + spans2)), []);
    BookedEmptyLog(source, spans1, spans2, overlap, k);
  }

  /** In overlap mode an overlapping pair with matching type is a true
      positive, so the log adds nothing to the overlap table. */
  lemma {:induction false} BookLogOverlapMode(b: Booking, source1: string, source2: string, L: seq<(Span, Span)>)
    ensures BookLog(b, source1, source2, true, L).stats.overlaps == b.stats.overlaps
    decreases |L|
  {
    if |L| > 0 {
      BookLogOverlapMode(BookPair(b, source1, source2, true, L[0]), source1, source2, L[1..]);
    }
  }

  /** Only the direction `(source1, source2)` collects overlap entries. */
  lemma {:induction false} BookLogOverlapDirection(b: Booking, source1: string, source2: string, overlap: bool,
                                                   L: seq<(Span, Span)>, q: Pair)
    requires q != (source1, source2)
    ensures OverlapTexts(BookLog(b, source1, source2, overlap, L).stats, q) == OverlapTexts(b.stats, q)
    decreases |L|
  {
    if |L| > 0 {
      BookLogOverlapDirection(BookPair(b, source1, source2, overlap, L[0]), source1, source2, overlap, L[1..], q);
    }
  }

  /** The overlap table of the result: empty in overlap mode, and only
      ever filled for `(source1, source2)`. */
  lemma BookedOverlapTable(source1: string, source2: string, spans1: seq<Span>, spans2: seq<Span>,
                           overlap: bool, L: seq<(Span, Span)>, q: Pair)
    requires overlap || q != (source1, source2)
    ensures OverlapTexts(Booked(source1, source2, spans1, spans2, overlap, L), q) == map[]
  {
    var b0 := Booking(NewStats(source1, source2), {}, {});
    var b := BookLog(b0, source1, source2, overlap, L);
    if overlap {
      BookLogOverlapMode(b0, source1, source2, L);
    } else {
      BookLogOverlapDirection(b0, source1, source2, overlap, L, q);
    }
    var st := BookUnmatched(b.stats, source1, source2, spans1, b.matched1);
    BookUnmatchedOverlaps(b.stats, source1, source2, spans1, b.matched1);
    BookUnmatchedOverlaps(st, source2, source1, spans2, b.matched2);
  }

  /** The directions the result reports: `(source1, source2)` always,
      and never a direction foreign to the two sources. */
  lemma BookedSources(source1: string, source2: string, spans1: seq<Span>, spans2: seq<Span>,
                      overlap: bool, L: seq<(Span, Span)>)
    ensures var r := Booked(source1, source2, spans1, spans2, overlap, L);
      (source1, source2) in Sources(r) && Sources(r) <= Both(source1, source2)
  {
    var b0 := Booking(NewStats(source1, source2), {}, {});
    var b := BookLog(b0, source1, source2, overlap, L);
    BookLogSources(b0, source1, source2, overlap, L);
    var st := BookUnmatched(b.stats, source1, source2, spans1, b.matched1);
    BookUnmatchedSources(b.stats, source1, source2, spans1, b.matched1);
    BookUnmatchedSources(st, source2, source1, spans2, b.matched2);
    assert Both(source2, source1) == Both(source1, source2);
  }

  /** The reverse direction is reported once anything has been booked:
      every span is either part of a true positive or unmatched. */
  lemma BookedReverseSource(source1: string, source2: string, spans1: seq<Span>, spans2: seq<Span>,
                            overlap: bool, L: seq<(Span, Span)>)
    requires source1 != source2
    ensures (source2, source1) in Sources(Booked(source1, source2, spans1, spans2, overlap, L))
        <==> CountIf(L, CorrespondsP(overlap)) > 0 || |spans1| + |spans2| > 0
  {
    var b0 := Booking(NewStats(source1, source2), {}, {});
    var b := BookLog(b0, source1, source2, overlap, L);
    BookLogSources(b0, source1, source2, overlap, L);
    var st := BookUnmatched(b.stats, source1, source2, spans1, b.matched1);
    BookUnmatchedSources(b.stats, source1, source2, spans1, b.matched1);
    BookUnmatchedSources(st, source2, source1, spans2, b.matched2);
    assert Both(source2, source1) == Both(source1, source2);
    if CountIf(L, CorrespondsP(overlap)) == 0 {
      BookLogMarked1(b0, source1, source2, overlap, L);
      BookLogMarked2(b0, source1, source2, overlap, L);
      NoTruePositives(overlap, L);
      NothingMatched(spans1);
      NothingMatched(spans2);
    }
  }

  lemma CompareOverlapTable(source1: string, source2: string, spans1: seq<Span>, spans2: seq<Span>,
                            overlap: bool, q: Pair)
    requires NoDup(spans1 + spans2) && forall s :: s in spans1 + spans2 ==> WellFormed(s)
    requires overlap || q != (source1, source2)
    ensures var r := CompareDocumentSpans(source1, source2, spans1, spans2, overlap);
      r.Success? && OverlapTexts(r.value, q) == map[]
  {
    CompareFailsIffInverted(source1, source2, spans1, spans2, overlap);
    BookedOverlapTable(source1, source2, spans1, spans2, overlap,
                       SweepLogOf(source1, source2, spans1, spans2).value, q);
  }

  lemma CompareSources(source1: string, source2: string, spans1: seq<Span>, spans2: seq<Span>, overlap: bool)
    requires NoDup(spans1 + spans2) && forall s :: s in spans1 + spans2 ==> WellFormed(s)
    ensures var r := CompareDocumentSpans(source1, source2, spans1, spans2, overlap);
      r.Success? && (source1, source2) in Sources(r.value) && Sources(r.value) <= Both(source1, source2)
  {
    CompareFailsIffInverted(source1, source2, spans1, spans2, overlap);
    BookedSources(source1, source2, spans1, spans2, overlap, SweepLogOf(source1, source2, spans1, spans2).value);
  }

  /** With no spans at all the sweep sees no event and logs nothing. */
  lemma CompareReverseSource(source1: string, source2: string, spans1: seq<Span>, spans2: seq<Span>, overlap: bool)
    requires NoDup(spans1 + spans2) && forall s :: s in spans1 + spans2 ==> WellFormed(s)
    requires source1 != source2
    ensures var r := CompareDocumentSpans(source1, source2, spans1, spans2, overlap);
      r.Success? && ((source2, source1) in Sources(r.value) <==> |spans1| + |spans2| > 0)
  {
    CompareFailsIffInverted(source1, source2, spans1, spans2, overlap);
    var L := SweepLogOf(source1, source2, spans1, spans2).value;
    BookedReverseSource(source1, source2, spans1, spans2, overlap, L);
    if |spans1| + |spans2| == 0 {
      var E := SortEvents(Boundaries(spans1 + spans2));
      assert |multiset(E)| == 0;
      assert E == [];
    }
  }

  lemma NoTruePositives(overlap: bool, L: seq<(Span, Span)>)
    requires CountIf(L, CorrespondsP(overlap)) == 0
    ensures MarkedFirst(overlap, L) == {} && MarkedSecond(overlap, L) == {}
  {
    CountIfPositive(L, CorrespondsP(overlap));
  }

  // ---------------------------------------------------------------------
  // The text tables.

  /** A true positive whose span of the first side has text `x`. */
  function TpFirstText(overlap: bool, x: string): ((Span, Span)) -> bool {
    (p: (Span, Span)) => Corresponds(overlap, p.0, p.1) && p.0.text == x
  }

  /** A true positive whose span of the second side has text `x`. */
  function TpSecondText(overlap: bool, x: string): ((Span, Span)) -> bool {
    (p: (Span, Span)) => Corresponds(overlap, p.0, p.1) && p.1.text == x
  }

  /** A pair that overlaps with matching type without being a true
      positive, and whose overlap key is `key`. */
  function OverlapOnlyKey(overlap: bool, key: string): ((Span, Span)) -> bool {
    (p: (Span, Span)) => !Corresponds(overlap, p.0, p.1) && OverlapMatches(p.0, p.1) && OverlapKey(p.0.text, p.1.text) == key
  }

  function UnmatchedText(matched: set<Span>, x: string): Span -> bool {
    s => s !in matched && s.text == x
  }

  /** The text tables the comparison should produce, stated without the
      sweep: a TP table counts the true positives among all cross pairs by
      the text of the direction's gold span, and the FN and FP tables count
      a side's spans without a partner by their own text. */
  function ExpectedText(overlap: bool, source1: string, source2: string, spans1: seq<Span>, spans2: seq<Span>,
                        k: Kind, q: Pair, x: string): nat
  {
    var lonely1 := CountIf(spans1, s => !HasPartner1(overlap, spans2, s) && s.text == x);
    var lonely2 := CountIf(spans2, s => !HasPartner2(overlap, spans1, s) && s.text == x);
    match k
    case TP =>
      if q == (source1, source2) then CountIf(CrossPairs(spans1, spans2), TpFirstText(overlap, x))
      else if q == (source2, source1) then CountIf(CrossPairs(spans1, spans2), TpSecondText(overlap, x))
      else 0
    case FN => if q == (source1, source2) then lonely1 else if q == (source2, source1) then lonely2 else 0
    case FP => if q == (source2, source1) then lonely1 else if q == (source1, source2) then lonely2 else 0
  }

  /** The overlap table the comparison should produce for
      `(source1, source2)`: the cross pairs that overlap with matching type
      without being true positives, counted by their overlap key. */
  function ExpectedOverlapEntries(overlap: bool, spans1: seq<Span>, spans2: seq<Span>, key: string): nat {
    CountIf(CrossPairs(spans1, spans2), OverlapOnlyKey(overlap, key))
  }

  lemma BookPairText(b: Booking, source1: string, source2: string, overlap: bool, p: (Span, Span),
                     k: Kind, q: Pair, x: string)
    requires source1 != source2
    ensures Get(Texts(BookPair(b, source1, source2, overlap, p).stats, k, q), x)
         == Get(Texts(b.stats, k, q), x)
          + (if k == TP && q == (source1, source2) && TpFirstText(overlap, x)(p) then 1 else 0)
          + (if k == TP && q == (source2, source1) && TpSecondText(overlap, x)(p) then 1 else 0)
  {
    if Corresponds(overlap, p.0, p.1) {
      var st1 := AddTp(b.stats, source1, source2, p.0.text);
      var st2 := AddTp(st1, source2, source1, p.1.text);
      assert BookPair(b, source1, source2, overlap, p).stats == st2;
      assert Get(Texts(st1, k, q), x) == Get(Texts(b.stats, k, q), x)
        + (if k == TP && q == (source1, source2) && p.0.text == x then 1 else 0);
      assert Get(Texts(st2, k, q), x) == Get(Texts(st1, k, q), x)
        + (if k == TP && q == (source2, source1) && p.1.text == x then 1 else 0);
    } else {
      assert BookPair(b, source1, source2, overlap, p).stats.texts == b.stats.texts;
    }
  }

  lemma BookPairOverlap(b: Booking, source1: string, source2: string, overlap: bool, p: (Span, Span), key: string)
    ensures Get(OverlapTexts(BookPair(b, source1, source2, overlap, p).stats, (source1, source2)), key)
         == Get(OverlapTexts(b.stats, (source1, source2)), key) + (if OverlapOnlyKey(overlap, key)(p) then 1 else 0)
  {
  }

  /** The log: each TP table grows by the true positives of the log whose
      gold span has the text; the FN and FP tables are untouched. */
  lemma {:induction false} BookLogText(b: Booking, source1: string, source2: string, overlap: bool,
                                       L: seq<(Span, Span)>, k: Kind, q: Pair, x: string)
    requires source1 != source2
    ensures Get(Texts(BookLog(b, source1, source2, overlap, L).stats, k, q), x)
         == Get(Texts(b.stats, k, q), x)
          + (if k == TP && q == (source1, source2) then CountIf(L, TpFirstText(overlap, x)) else 0)
          + (if k == TP && q == (source2, source1) then CountIf(L, TpSecondText(overlap, x)) else 0)
    decreases |L|
  {
    if |L| > 0 {
      BookPairText(b, source1, source2, overlap, L[0], k, q, x);
      BookLogText(BookPair(b, source1, source2, overlap, L[0]), source1, source2, overlap, L[1..], k, q, x);
    }
  }

  /** The log: the overlap table of `(source1, source2)` grows by the
      pairs of the log that overlap with matching type without being true
      positives. */
  lemma {:induction false} BookLogOverlapEntries(b: Booking, source1: string, source2: string, overlap: bool,
                                                 L: seq<(Span, Span)>, key: string)
    ensures Get(OverlapTexts(BookLog(b, source1, source2, overlap, L).stats, (source1, source2)), key)
         == Get(OverlapTexts(b.stats, (source1, source2)), key) + CountIf(L, OverlapOnlyKey(overlap, key))
    decreases |L|
  {
    if |L| > 0 {
      BookPairOverlap(b, source1, source2, overlap, L[0], key);
      BookLogOverlapEntries(BookPair(b, source1, source2, overlap, L[0]), source1, source2, overlap, L[1..], key);
    }
  }

  /** The unmatched spans of one side: the FN table of its own direction
      and the FP table of the reverse grow by the unmatched spans with the
      text; nothing else changes. */
  lemma {:induction false} BookUnmatchedText(st: Stats, own: string, other: string, spans: seq<Span>,
                                             matched: set<Span>, k: Kind, q: Pair, x: string)
    ensures Get(Texts(BookUnmatched(st, own, other, spans, matched), k, q), x)
         == Get(Texts(st, k, q), x) + (if (k, q) == (FN, (own, other)) || (k, q) == (FP, (other, own))
                                       then CountIf(spans, UnmatchedText(matched, x)) else 0)
    decreases |spans|
  {
    if |spans| > 0 {
      var s := spans[0];
      var st' := if s in matched then st else AddFn(AddFp(st, other, own, s.text), own, other, s.text);
      if s !in matched {
        UnmatchedSpanText(st, own, other, s.text, k, q, x);
      }
      BookUnmatchedText(st', own, other, spans[1..], matched, k, q, x);
    }
  }

  /** One unmatched span: one entry under its text in the FN table of its
      own direction and in the FP table of the reverse. */
  lemma UnmatchedSpanText(st: Stats, own: string, other: string, text: string, k: Kind, q: Pair, x: string)
    ensures Get(Texts(AddFn(AddFp(st, other, own, text), own, other, text), k, q), x)
         == Get(Texts(st, k, q), x) + (if ((k, q) == (FN, (own, other)) || (k, q) == (FP, (other, own))) && text == x then 1 else 0)
  {
    var st1 := AddFp(st, other, own, text);
    assert Get(Texts(st1, k, q), x) == Get(Texts(st, k, q), x) + (if (k, q) == (FP, (other, own)) && text == x then 1 else 0);
  }

  /** The text tables after booking a log, in terms of the log's true
      positives and the spans they leave unmarked. */
  lemma BookedTextFormula(source1: string, source2: string, spans1: seq<Span>, spans2: seq<Span>,
                          overlap: bool, L: seq<(Span, Span)>, k: Kind, q: Pair, x: string)
    requires source1 != source2
    ensures Get(Texts(Booked(source1, source2, spans1, spans2, overlap, L), k, q), x)
         == (if k == TP && q == (source1, source2) then CountIf(L, TpFirstText(overlap, x)) else 0)
          + (if k == TP && q == (source2, source1) then CountIf(L, TpSecondText(overlap, x)) else 0)
          + (if (k, q) == (FN, (source1, source2)) || (k, q) == (FP, (source2, source1))
             then CountIf(spans1, UnmatchedText(MarkedFirst(overlap, L), x)) else 0)
          + (if (k, q) == (FN, (source2, source1)) || (k, q) == (FP, (source1, source2))
             then CountIf(spans2, UnmatchedText(MarkedSecond(overlap, L), x)) else 0)
  {
    var b0 := Booking(NewStats(source1, source2), {}, {});
    var b := BookLog(b0, source1, source2, overlap, L);
    var st := BookUnmatched(b.stats, source1, source2, spans1, b.matched1);
    BookLogText(b0, source1, source2, overlap, L, k, q, x);
    BookLogMarked1(b0, source1, source2, overlap, L);
    BookLogMarked2(b0, source1, source2, overlap, L);
    assert b.matched1 == MarkedFirst(overlap, L);
    assert b.matched2 == MarkedSecond(overlap, L);
    BookUnmatchedText(b.stats, source1, source2, spans1, b.matched1, k, q, x);
    BookUnmatchedText(st, source2, source1, spans2, b.matched2, k, q, x);
  }

  /** The unmarked spans of a side with text `x` are its spans with text
      `x` and without a partner. */
  lemma LogLonelyText(overlap: bool, L: seq<(Span, Span)>, spans1: seq<Span>, spans2: seq<Span>, x: string)
    requires forall s :: s in spans1 + spans2 ==> WellFormed(s)
    requires forall p :: p in L <==> p.0 in spans1 && p.1 in spans2 && Overlaps(p.0, p.1)
    ensures CountIf(spans1, UnmatchedText(MarkedFirst(overlap, L), x))
         == CountIf(spans1, s => !HasPartner1(overlap, spans2, s) && s.text == x)
    ensures CountIf(spans2, UnmatchedText(MarkedSecond(overlap, L), x))
         == CountIf(spans2, s => !HasPartner2(overlap, spans1, s) && s.text == x)
  {
    forall s | s in spans1
      ensures UnmatchedText(MarkedFirst(overlap, L), x)(s) == (!HasPartner1(overlap, spans2, s) && s.text == x)
    {
      MarkedFirstPartners(overlap, L, spans1, spans2, s);
    }
    CountIfCongruent(spans1, UnmatchedText(MarkedFirst(overlap, L), x),
                     s => !HasPartner1(overlap, spans2, s) && s.text == x);
    forall s | s in spans2
      ensures UnmatchedText(MarkedSecond(overlap, L), x)(s) == (!HasPartner2(overlap, spans1, s) && s.text == x)
    {
      MarkedSecondPartners(overlap, L, spans1, spans2, s);
    }
    CountIfCongruent(spans2, UnmatchedText(MarkedSecond(overlap, L), x),
                     s => !HasPartner2(overlap, spans1, s) && s.text == x);
  }

  /** The text tables after the sweep, for any log holding exactly the
      overlapping cross pairs. */
  lemma BookedTexts(source1: string, source2: string, spans1: seq<Span>, spans2: seq<Span>,
                    overlap: bool, L: seq<(Span, Span)>, k: Kind, q: Pair, x: string)
    requires NoDup(L) && NoDup(spans1) && NoDup(spans2)
    requires forall s :: s in spans1 + spans2 ==> WellFormed(s)
    requires forall p :: p in L <==> p.0 in spans1 && p.1 in spans2 && Overlaps(p.0, p.1)
    requires source1 != source2
    ensures Get(Texts(Booked(source1, source2, spans1, spans2, overlap, L), k, q), x)
         == ExpectedText(overlap, source1, source2, spans1, spans2, k, q, x)
  {
    BookedTextFormula(source1, source2, spans1, spans2, overlap, L, k, q, x);
    forall p: (Span, Span) | p.0 in spans1 && p.1 in spans2 && Corresponds(overlap, p.0, p.1)
      ensures Overlaps(p.0, p.1)
    {
      CorrespondsOverlaps(overlap, p.0, p.1);
    }
    LogCountIf(L, spans1, spans2, TpFirstText(overlap, x));
    LogCountIf(L, spans1, spans2, TpSecondText(overlap, x));
    LogLonelyText(overlap, L, spans1, spans2, x);
  }

  /** The overlap table after the sweep, for any log holding exactly the
      overlapping cross pairs. */
  lemma BookedOverlapEntries(source1: string, source2: string, spans1: seq<Span>, spans2: seq<Span>,
                             overlap: bool, L: seq<(Span, Span)>, key: string)
    requires NoDup(L) && NoDup(spans1) && NoDup(spans2)
    requires forall p :: p in L <==> p.0 in spans1 && p.1 in spans2 && Overlaps(p.0, p.1)
    ensures Get(OverlapTexts(Booked(source1, source2, spans1, spans2, overlap, L), (source1, source2)), key)
         == ExpectedOverlapEntries(overlap, spans1, spans2, key)
  {
    var b0 := Booking(NewStats(source1, source2), {}, {});
    var b := BookLog(b0, source1, source2, overlap, L);
    BookLogOverlapEntries(b0, source1, source2, overlap, L, key);
    var st := BookUnmatched(b.stats, source1, source2, spans1, b.matched1);
    BookUnmatchedOverlaps(b.stats, source1, source2, spans1, b.matched1);
    BookUnmatchedOverlaps(st, source2, source1, spans2, b.matched2);
    LogCountIf(L, spans1, spans2, OverlapOnlyKey(overlap, key));
  }

  /** The text tables of the comparison hold their reference values. */
  lemma CompareTexts(source1: string, source2: string, spans1: seq<Span>, spans2: seq<Span>,
                     overlap: bool, k: Kind, q: Pair, x: string)
    requires NoDup(spans1 + spans2) && forall s :: s in spans1 + spans2 ==> WellFormed(s)
    requires source1 != source2
    ensures var r := CompareDocumentSpans(source1, source2, spans1, spans2, overlap);
      r.Success? && Get(Texts(r.value, k, q), x) == ExpectedText(overlap, source1, source2, spans1, spans2, k, q, x)
  {
    SweepLog(source1, source2, spans1, spans2);
    NoDupHalves(spans1, spans2);
    var L := SweepLogOf(source1, source2, spans1, spans2).value;
    BookedTexts(source1, source2, spans1, spans2, overlap, L, k, q, x);
  }

  /** The overlap table of the comparison for `(source1, source2)` holds
      its reference value; in overlap mode that is empty. */
  lemma CompareOverlapEntries(source1: string, source2: string, spans1: seq<Span>, spans2: seq<Span>,
                              overlap: bool, key: string)
    requires NoDup(spans1 + spans2) && forall s :: s in spans1 + spans2 ==> WellFormed(s)
    requires source1 != source2
    ensures var r := CompareDocumentSpans(source1, source2, spans1, spans2, overlap);
      r.Success? && Get(OverlapTexts(r.value, (source1, source2)), key) == ExpectedOverlapEntries(overlap, spans1, spans2, key)
  {
    SweepLog(source1, source2, spans1, spans2);
    NoDupHalves(spans1, spans2);
    var L := SweepLogOf(source1, source2, spans1, spans2).value;
    BookedOverlapEntries(source1, source2, spans1, spans2, overlap, L, key);
  }

  // ---------------------------------------------------------------------
  // One document of the comparison driver.

  /** Comparing one document and merging its statistics into the running
      total with `add_stats`. */
  function CompareAndMerge(total: Stats, source1: string, source2: string, spans1: seq<Span>, spans2: seq<Span>,
                           overlap: bool): Result<Stats>
  {
    var doc :- CompareDocumentSpans(source1, source2, spans1, spans2, overlap);
    Success(AddStats(total, doc))
  }

  /** Each document adds its reference counts to the running total. */
  lemma CompareAndMergeCounts(total: Stats, source1: string, source2: string, spans1: seq<Span>,
                              spans2: seq<Span>, overlap: bool, k: Kind, q: Pair)
    requires NoDup(spans1 + spans2) && forall s :: s in spans1 + spans2 ==> WellFormed(s)
    requires source1 != source2
    ensures var r := CompareAndMerge(total, source1, source2, spans1, spans2, overlap);
      r.Success? && Count(r.value, k, q) == Count(total, k, q) + ExpectedCount(overlap, source1, source2, spans1, spans2, k, q)
  {
    CompareCounts(source1, source2, spans1, spans2, overlap, k, q);
  }

  /** The comparison of one document is symmetric between its two
      directions. */
  lemma CompareSymmetric(source1: string, source2: string, spans1: seq<Span>, spans2: seq<Span>, overlap: bool)
    requires NoDup(spans1 + spans2) && forall s :: s in spans1 + spans2 ==> WellFormed(s)
    requires source1 != source2
    ensures var r := CompareDocumentSpans(source1, source2, spans1, spans2, overlap);
      r.Success? && Symmetric(r.value, source1, source2)
  {
    var r := CompareDocumentSpans(source1, source2, spans1, spans2, overlap);
    ExpectedSymmetric(overlap, source1, source2, spans1, spans2);
    CompareCounts(source1, source2, spans1, spans2, overlap, TP, (source1, source2));
    CompareCounts(source1, source2, spans1, spans2, overlap, TP, (source2, source1));
    CompareCounts(source1, source2, spans1, spans2, overlap, FN, (source1, source2));
    CompareCounts(source1, source2, spans1, spans2, overlap, FP, (source2, source1));
    CompareCounts(source1, source2, spans1, spans2, overlap, FP, (source1, source2));
    CompareCounts(source1, source2, spans1, spans2, overlap, FN, (source2, source1));
  }

  /** The reference counts are symmetric between the two directions. */
  lemma ExpectedSymmetric(overlap: bool, source1: string, source2: string, spans1: seq<Span>, spans2: seq<Span>)
    requires source1 != source2
    ensures var a, b := (source1, source2), (source2, source1);
      && ExpectedCount(overlap, source1, source2, spans1, spans2, TP, a) == ExpectedCount(overlap, source1, source2, spans1, spans2, TP, b)
      && ExpectedCount(overlap, source1, source2, spans1, spans2, FN, a) == ExpectedCount(overlap, source1, source2, spans1, spans2, FP, b)
      && ExpectedCount(overlap, source1, source2, spans1, spans2, FP, a) == ExpectedCount(overlap, source1, source2, spans1, spans2, FN, b)
  {
  }

  /** The running total stays symmetric document after document. */
  lemma CompareAndMergeKeepsSymmetry(total: Stats, source1: string, source2: string, spans1: seq<Span>,
                                     spans2: seq<Span>, overlap: bool)
    requires NoDup(spans1 + spans2) && forall s :: s in spans1 + spans2 ==> WellFormed(s)
    requires source1 != source2
    requires Symmetric(total, source1, source2)
    ensures var r := CompareAndMerge(total, source1, source2, spans1, spans2, overlap);
      r.Success? && Symmetric(r.value, source1, source2)
  {
    CompareSymmetric(source1, source2, spans1, spans2, overlap);
    AddStatsSymmetric(total, CompareDocumentSpans(source1, source2, spans1, spans2, overlap).value, source1, source2);
  }
}
