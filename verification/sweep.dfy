/** The sweep line of `compare_document_spans`.

    Every span contributes an opening event at `start` and a closing event
    at `end + 1` (end-exclusive); events are sorted by offset with closing
    before opening at equal offsets; a left-to-right pass keeps the
    insertion-ordered set of open spans and, at each opening, compares the
    new span with every open span of the other source.

    The pass is modelled as a fold that returns the log of compared pairs,
    each oriented `(span of source1, span of source2)`, in comparison
    order. Booking the log into statistics is a separate fold (module
    `SpanCompare`); the source interleaves the two, which changes nothing
    because booking never affects the sweep.
 */
module SpanSweep {
  import opened Wrappers
  import opened Seqs
  import opened SpanModel

  // ---------------------------------------------------------------------
  // Events and their order.

  /** The source encodes the kinds as the strings 'e' and 's', so closing
      sorts before opening. */
  datatype Boundary = End | Start

  function Rank(b: Boundary): nat {
    if b.End? then 0 else 1
  }

  datatype Event = Event(offset: int, boundary: Boundary, span: Span)

  function StartEv(s: Span): Event {
    Event(s.start, Start, s)
  }

  function EndEv(s: Span): Event {
    Event(s.end + 1, End, s)
  }

  /** The order on `(offset, kind)` the sort establishes. Ties on both are
      broken in the source by comparing span objects, an order that is
      not part of this model: everything below holds for every tie order. */
  predicate Before(a: Event, b: Event) {
    a.offset < b.offset || (a.offset == b.offset && Rank(a.boundary) <= Rank(b.boundary))
  }

  predicate Sorted(E: seq<Event>) {
    forall i, j :: 0 <= i < j < |E| ==> Before(E[i], E[j])
  }

  /** Opening and closing event of every span, in input order. */
  function Boundaries(spans: seq<Span>): (r: seq<Event>)
    ensures |r| == 2 * |spans|
    decreases |spans|
  {
    if |spans| == 0 then [] else [StartEv(spans[0]), EndEv(spans[0])] + Boundaries(spans[1..])
  }

  /** `E` holds exactly the two events of every span of `all`. */
  ghost predicate EventsOf(E: seq<Event>, all: seq<Span>) {
    forall e :: e in E <==> e.span in all && (e == StartEv(e.span) || e == EndEv(e.span))
  }

  lemma {:induction false} BoundariesEvents(spans: seq<Span>)
    ensures EventsOf(Boundaries(spans), spans)
    ensures NoDup(spans) ==> NoDup(Boundaries(spans))
    decreases |spans|
  {
    if |spans| > 0 {
      var s := spans[0];
      var rest := Boundaries(spans[1..]);
      BoundariesEvents(spans[1..]);
      assert spans == [s] + spans[1..];
      assert Boundaries(spans) == [StartEv(s), EndEv(s)] + rest;
      if NoDup(spans) {
        assert NoDup(spans[1..]) by {
          forall i, j | 0 <= i < j < |spans[1..]| ensures spans[1..][i] != spans[1..][j] {
            assert spans[1..][i] == spans[i + 1] && spans[1..][j] == spans[j + 1];
          }
        }
        assert s !in spans[1..];
        NoDupAppend([StartEv(s), EndEv(s)], rest);
      }
    }
  }

  // ---------------------------------------------------------------------
  // Sorting: a stable insertion sort stands for Python's `list.sort`.

  function InsertEvent(e: Event, E: seq<Event>): (r: seq<Event>)
    requires Sorted(E)
    ensures Sorted(r)
    ensures multiset(r) == multiset(E) + multiset{e}
    decreases |E|
  {
    if |E| == 0 then [e]
    else if Before(e, E[0]) then
      SortedCons(e, E);
      [e] + E
    else
      var r' := InsertEvent(e, E[1..]);
      assert E == [E[0]] + E[1..];
      assert forall x :: x in r' ==> x == e || x in E[1..] by {
        forall x | x in r' ensures x == e || x in E[1..] {
          assert x in multiset(r');
        }
      }
      SortedCons(E[0], r');
      [E[0]] + r'
  }

  /** Prepending an event that comes before every element keeps order. */
  lemma SortedCons(x: Event, E: seq<Event>)
    requires Sorted(E)
    requires |E| == 0 || Before(x, E[0]) || forall y :: y in E ==> Before(x, y)
    ensures Sorted([x] + E)
  {
    forall i, j | 0 <= i < j < |[x] + E| ensures Before(([x] + E)[i], ([x] + E)[j]) {
      if i == 0 {
        assert ([x] + E)[j] == E[j - 1];
        if !(forall y :: y in E ==> Before(x, y)) {
          assert Before(x, E[0]);
          assert j - 1 == 0 || Before(E[0], E[j - 1]);
        }
      } else {
        assert ([x] + E)[i] == E[i - 1] && ([x] + E)[j] == E[j - 1];
      }
    }
  }

  /** `boundaries.sort()` up to the order among events that agree on
      offset and kind. */
  function SortEvents(E: seq<Event>): (r: seq<Event>)
    ensures Sorted(r)
    ensures multiset(r) == multiset(E)
    decreases |E|
  {
    if |E| == 0 then []
    else
      assert E == [E[0]] + E[1..];
      InsertEvent(E[0], SortEvents(E[1..]))
  }

  // ---------------------------------------------------------------------
  // The pass.

  /** The two sources being compared and the spans of the second one:
      `span_source` maps the spans of `spans1` to `source1`, then the spans
      of `spans2` to `source2`, the later assignment winning. */
  datatype Sides = Sides(source1: string, source2: string, spans2: seq<Span>)

  function SourceOf(sd: Sides, s: Span): string {
    if s in sd.spans2 then sd.source2 else sd.source1
  }

  /** Orientation of a compared pair: the span of `source1` first. The
      source asserts that a span not from `source1` is from `source2`,
      which always holds since every span maps to one of the two. */
  function Oriented(sd: Sides, x: Span, y: Span): (Span, Span) {
    if SourceOf(sd, x) == sd.source1 then (x, y) else (y, x)
  }

  /** The comparisons made when `x` opens: every open span of the other
      source, in insertion order of the open set. */
  function Compared(sd: Sides, x: Span, open: seq<Span>): (r: seq<(Span, Span)>)
    ensures sd.source1 == sd.source2 ==> r == []
    ensures sd.source1 != sd.source2 ==> forall p :: p in r <==>
      if x in sd.spans2 then p.1 == x && p.0 in open && p.0 !in sd.spans2
      else p.0 == x && p.1 in open && p.1 in sd.spans2
    ensures NoDup(open) ==> NoDup(r)
    decreases |open|
  {
    if |open| == 0 then []
    else
      var y := open[0];
      var rest := Compared(sd, x, open[1..]);
      assert open == [y] + open[1..];
      assert NoDup(open) ==> NoDup(open[1..]) && y !in open[1..] by {
        if NoDup(open) {
          forall i, j | 0 <= i < j < |open[1..]| ensures open[1..][i] != open[1..][j] {
            assert open[1..][i] == open[i + 1] && open[1..][j] == open[j + 1];
          }
        }
      }
      if SourceOf(sd, x) != SourceOf(sd, y) then [Oriented(sd, x, y)] + rest else rest
  }

  /** `del open_spans[span]`: removes `x` from the ordered set. */
  function Remove(open: seq<Span>, x: Span): (r: seq<Span>)
    ensures forall z :: z in r ==> z in open
    ensures NoDup(open) ==> forall z :: z in r <==> z in open && z != x
    ensures NoDup(open) ==> NoDup(r)
    decreases |open|
  {
    if |open| == 0 then []
    else
      assert open == [open[0]] + open[1..];
      assert NoDup(open) ==> NoDup(open[1..]) && open[0] !in open[1..] by {
        if NoDup(open) {
          forall i, j | 0 <= i < j < |open[1..]| ensures open[1..][i] != open[1..][j] {
            assert open[1..][i] == open[i + 1] && open[1..][j] == open[j + 1];
          }
        }
      }
      if open[0] == x then open[1..]
      else
        var r := Remove(open[1..], x);
        assert NoDup(open) ==> open[0] !in r;
        [open[0]] + r
  }

  /** The sweep over the remaining events `E` with open set `open`:
      the log of compared pairs, or `None` when a closing event finds its
      span not open (`KeyError` from `del`). */
  function Sweep(sd: Sides, E: seq<Event>, open: seq<Span>): Option<seq<(Span, Span)>>
    decreases |E|
  {
    if |E| == 0 then Some([])
    else
      var x := E[0].span;
      match E[0].boundary
      case Start =>
        var rest :- Sweep(sd, E[1..], if x in open then open else open + [x]);
        Some(Compared(sd, x, open) + rest)
      case End =>
        if x in open then Sweep(sd, E[1..], Remove(open, x)) else None
  }

  // ---------------------------------------------------------------------
  // Correctness of the pass.

  /** A pair the sweep is expected to report: a span of the first source,
      a span of the second, with intersecting closed intervals. */
  ghost predicate CrossOverlap(sd: Sides, all: seq<Span>, p: (Span, Span)) {
    p.0 in all && p.1 in all && p.0 !in sd.spans2 && p.1 in sd.spans2 && Overlaps(p.0, p.1)
  }

  /** The facts about the event sequence the pass relies on. */
  ghost predicate EventHyps(E: seq<Event>, all: seq<Span>) {
    && NoDup(E)
    && EventsOf(E, all)
    && Sorted(E)
    && forall s :: s in all ==> WellFormed(s)
  }

  /** After the first `k` events, the open spans are those opened and not
      yet closed. */
  ghost predicate OpenInv(E: seq<Event>, k: nat, open: seq<Span>)
    requires k <= |E|
  {
    NoDup(open) && forall z :: z in open <==> StartEv(z) in E[..k] && EndEv(z) !in E[..k]
  }

  /** The log of the rest of the pass: every expected pair at least one of
      whose spans opens in the remaining events, each exactly once. */
  ghost predicate LogSpec(sd: Sides, E: seq<Event>, all: seq<Span>, k: nat, L: seq<(Span, Span)>)
    requires k <= |E|
  {
    NoDup(L) &&
    forall p :: p in L <==> CrossOverlap(sd, all, p) && (StartEv(p.0) in E[k..] || StartEv(p.1) in E[k..])
  }

  /** A well-formed span opens before it closes. */
  lemma StartBeforeEnd(E: seq<Event>, s: Span, i: nat, j: nat)
    requires Sorted(E) && WellFormed(s)
    requires i < |E| && j < |E| && E[i] == StartEv(s) && E[j] == EndEv(s)
    ensures i < j
  {
  }

  /** A span open when `y` opens intersects `y`. */
  lemma OpenOverlaps(E: seq<Event>, x: Span, y: Span, i: nat, k: nat, m: nat)
    requires Sorted(E) && WellFormed(y)
    requires i < k < m < |E|
    requires E[i] == StartEv(x) && E[k] == StartEv(y) && E[m] == EndEv(x)
    ensures Overlaps(x, y)
  {
    assert Before(E[i], E[k]);
    assert Before(E[k], E[m]);
  }

  /** A span intersecting `y` that opened before `y` has not closed yet. */
  lemma OverlapStillOpen(E: seq<Event>, x: Span, y: Span, k: nat, m: nat)
    requires Sorted(E) && Overlaps(x, y)
    requires m < k < |E| && E[k] == StartEv(y)
    ensures E[m] != EndEv(x)
  {
  }

  /** The open set after an opening event. */
  lemma StartOpen(E: seq<Event>, all: seq<Span>, k: nat, open: seq<Span>)
    requires EventHyps(E, all)
    requires k < |E| && E[k].boundary == Start
    requires OpenInv(E, k, open)
    ensures E[k] == StartEv(E[k].span)
    ensures E[k].span !in open
    ensures OpenInv(E, k + 1, open + [E[k].span])
  {
    var x := E[k].span;
    assert E[k] in E;
    assert E[..k + 1] == E[..k] + [E[k]];
    NoDupSplit(E, k, E[k]);
    assert E[k] !in E[..k];
    assert EndEv(x) in E;
    var m :| 0 <= m < |E| && E[m] == EndEv(x);
    StartBeforeEnd(E, x, k, m);
    assert EndEv(x) !in E[..k + 1];
    assert NoDup(open + [x]) by {
      NoDupAppend(open, [x]);
    }
  }

  /** The log after an opening event: the comparisons made now followed by
      the log of the rest of the pass. */
  lemma StartStep(sd: Sides, E: seq<Event>, all: seq<Span>, k: nat, open: seq<Span>, rest: seq<(Span, Span)>)
    requires EventHyps(E, all) && sd.source1 != sd.source2
    requires k < |E| && E[k].boundary == Start
    requires OpenInv(E, k, open)
    requires LogSpec(sd, E, all, k + 1, rest)
    ensures LogSpec(sd, E, all, k, Compared(sd, E[k].span, open) + rest)
  {
    var C := Compared(sd, E[k].span, open);
    StartOpen(E, all, k, open);
    assert E[k..] == [E[k]] + E[k + 1..];
    StartFresh(sd, E, all, k, open, rest);
    NoDupAppend(C, rest);
    forall p ensures p in C + rest <==> CrossOverlap(sd, all, p) && (StartEv(p.0) in E[k..] || StartEv(p.1) in E[k..]) {
      if p in C {
        StartComparedExpected(sd, E, all, k, open, p);
      } else if p !in rest && CrossOverlap(sd, all, p) && (StartEv(p.0) in E[k..] || StartEv(p.1) in E[k..]) {
        StartExpectedCompared(sd, E, all, k, open, rest, p);
      }
    }
  }

  /** The comparisons made at an opening event are not repeated later:
      both spans of each have already opened. */
  lemma StartFresh(sd: Sides, E: seq<Event>, all: seq<Span>, k: nat, open: seq<Span>, rest: seq<(Span, Span)>)
    requires EventHyps(E, all) && sd.source1 != sd.source2
    requires k < |E| && E[k].boundary == Start
    requires OpenInv(E, k, open)
    requires LogSpec(sd, E, all, k + 1, rest)
    ensures forall p :: p in Compared(sd, E[k].span, open) ==> p !in rest
  {
    var x := E[k].span;
    StartOpen(E, all, k, open);
    assert E[..k + 1] == E[..k] + [E[k]];
    forall p | p in Compared(sd, x, open) ensures p !in rest {
      var y := if p.0 == x then p.1 else p.0;
      assert y in open;
      NoDupSplit(E, k + 1, StartEv(y));
      NoDupSplit(E, k + 1, StartEv(x));
      assert StartEv(y) in E[..k + 1];
      assert StartEv(x) in E[..k + 1];
    }
  }

  /** Every comparison made at an opening event is an expected pair. */
  lemma StartComparedExpected(sd: Sides, E: seq<Event>, all: seq<Span>, k: nat, open: seq<Span>, p: (Span, Span))
    requires EventHyps(E, all) && sd.source1 != sd.source2
    requires k < |E| && E[k].boundary == Start
    requires OpenInv(E, k, open)
    requires p in Compared(sd, E[k].span, open)
    ensures CrossOverlap(sd, all, p) && (StartEv(p.0) in E[k..] || StartEv(p.1) in E[k..])
  {
    var x := E[k].span;
    StartOpen(E, all, k, open);
    var y := if p.0 == x then p.1 else p.0;
    assert y in open;
    var i :| 0 <= i < k && E[i] == StartEv(y);
    assert EndEv(y) in E;
    var m2 :| 0 <= m2 < |E| && E[m2] == EndEv(y);
    assert m2 > k;
    OpenOverlaps(E, y, x, i, k, m2);
    assert StartEv(x) in E;
    assert StartEv(y) in E;
    assert E[k..][0] == E[k];
  }

  /** Every expected pair of the opening span that is not logged later is
      compared now. */
  lemma StartExpectedCompared(sd: Sides, E: seq<Event>, all: seq<Span>, k: nat, open: seq<Span>,
                              rest: seq<(Span, Span)>, p: (Span, Span))
    requires EventHyps(E, all) && sd.source1 != sd.source2
    requires k < |E| && E[k].boundary == Start
    requires OpenInv(E, k, open)
    requires LogSpec(sd, E, all, k + 1, rest)
    requires CrossOverlap(sd, all, p) && (StartEv(p.0) in E[k..] || StartEv(p.1) in E[k..]) && p !in rest
    ensures p in Compared(sd, E[k].span, open)
  {
    var x := E[k].span;
    StartOpen(E, all, k, open);
    assert E[k..] == [E[k]] + E[k + 1..];
    assert p.0 == x || p.1 == x;
    var y := if p.0 == x then p.1 else p.0;
    assert y != x;
    assert StartEv(y) in E;
    assert StartEv(y) in E[..k];
    OverlapFacts(E, all, x, y, k);
  }

  /** Part of the opening step: the other span of an expected pair that
      opened earlier is open. */
  lemma OverlapFacts(E: seq<Event>, all: seq<Span>, x: Span, y: Span, k: nat)
    requires EventHyps(E, all)
    requires k < |E| && E[k] == StartEv(x)
    requires StartEv(y) in E[..k] && Overlaps(x, y)
    ensures EndEv(y) !in E[..k]
  {
    if EndEv(y) in E[..k] {
      var m :| 0 <= m < k && E[m] == EndEv(y);
      OverlapStillOpen(E, y, x, k, m);
    }
  }

  /** The open set after a closing event: the closed span was open. */
  lemma EndOpen(E: seq<Event>, all: seq<Span>, k: nat, open: seq<Span>)
    requires EventHyps(E, all)
    requires k < |E| && E[k].boundary == End
    requires OpenInv(E, k, open)
    ensures E[k].span in open
    ensures OpenInv(E, k + 1, Remove(open, E[k].span))
  {
    var x := E[k].span;
    assert E[k] in E;
    assert E[k] == EndEv(x);
    assert E[..k + 1] == E[..k] + [E[k]];
    NoDupSplit(E, k, E[k]);
    assert StartEv(x) in E;
    var i :| 0 <= i < |E| && E[i] == StartEv(x);
    StartBeforeEnd(E, x, i, k);
    assert StartEv(x) in E[..k];
  }

  /** The log is unchanged by a closing event. */
  lemma EndStep(sd: Sides, E: seq<Event>, all: seq<Span>, k: nat, rest: seq<(Span, Span)>)
    requires EventHyps(E, all)
    requires k < |E| && E[k].boundary == End
    requires LogSpec(sd, E, all, k + 1, rest)
    ensures LogSpec(sd, E, all, k, rest)
  {
    assert E[k] in E;
    assert E[k] == EndEv(E[k].span);
    assert E[k..] == [E[k]] + E[k + 1..];
  }

  /** The pass over the events from `k` on reports exactly the expected
      pairs with a span opening from `k` on, without repetition. */
  lemma {:induction false} SweepSuffix(sd: Sides, E: seq<Event>, all: seq<Span>, k: nat, open: seq<Span>)
    requires EventHyps(E, all) && sd.source1 != sd.source2
    requires k <= |E|
    requires OpenInv(E, k, open)
    ensures Sweep(sd, E[k..], open).Some?
    ensures LogSpec(sd, E, all, k, Sweep(sd, E[k..], open).value)
    decreases |E| - k
  {
    if k == |E| {
      assert E[k..] == [];
    } else {
      var x := E[k].span;
      assert E[k..][0] == E[k];
      assert E[k..][1..] == E[k + 1..];
      if E[k].boundary == Start {
        StartOpen(E, all, k, open);
        var open' := open + [x];
        SweepSuffix(sd, E, all, k + 1, open');
        StartStep(sd, E, all, k, open, Sweep(sd, E[k + 1..], open').value);
      } else {
        EndOpen(E, all, k, open);
        var open' := Remove(open, x);
        SweepSuffix(sd, E, all, k + 1, open');
        EndStep(sd, E, all, k, Sweep(sd, E[k + 1..], open').value);
      }
    }
  }

  // ---------------------------------------------------------------------
  // The pass as a whole.

  /** The facts the sweep needs follow from the events being a sorted
      permutation of `Boundaries(all)`. */
  lemma EventHypsOfSorted(E: seq<Event>, all: seq<Span>)
    requires NoDup(all) && forall s :: s in all ==> WellFormed(s)
    requires Sorted(E) && multiset(E) == multiset(Boundaries(all))
    ensures EventHyps(E, all)
  {
    BoundariesEvents(all);
    NoDupPermutation(Boundaries(all), E);
    forall e ensures e in E <==> e in Boundaries(all) {
      assert e in E <==> e in multiset(E);
    }
  }

  /** With two distinct source names and well-formed, pairwise distinct
      spans, the sweep succeeds and compares each pair of a span of the
      first source and an intersecting span of the second source exactly
      once, and no other pair; this holds whatever the order among events
      equal on offset and kind. */
  lemma SweepReportsCrossOverlaps(sd: Sides, all: seq<Span>, E: seq<Event>)
    requires NoDup(all) && forall s :: s in all ==> WellFormed(s)
    requires Sorted(E) && multiset(E) == multiset(Boundaries(all))
    requires sd.source1 != sd.source2
    ensures Sweep(sd, E, []).Some?
    ensures NoDup(Sweep(sd, E, []).value)
    ensures forall p :: p in Sweep(sd, E, []).value <==> CrossOverlap(sd, all, p)
  {
    EventHypsOfSorted(E, all);
    assert E[..0] == [];
    assert E[0..] == E;
    SweepSuffix(sd, E, all, 0, []);
    forall p | CrossOverlap(sd, all, p) ensures StartEv(p.0) in E {
    }
  }

  /** The names of the sources decide only which pairs are compared, not
      whether the pass raises. */
  lemma {:induction false} SweepSucceedsIndependently(sd: Sides, sd': Sides, E: seq<Event>, open: seq<Span>)
    ensures Sweep(sd, E, open).Some? <==> Sweep(sd', E, open).Some?
    decreases |E|
  {
    if |E| > 0 {
      var x := E[0].span;
      if E[0].boundary == Start {
        SweepSucceedsIndependently(sd, sd', E[1..], if x in open then open else open + [x]);
      } else if x in open {
        SweepSucceedsIndependently(sd, sd', E[1..], Remove(open, x));
      }
    }
  }

  /** When both sides carry the same source name nothing is compared. */
  lemma {:induction false} SweepSameSource(sd: Sides, E: seq<Event>, open: seq<Span>)
    requires sd.source1 == sd.source2
    ensures Sweep(sd, E, open).Some? ==> Sweep(sd, E, open).value == []
    decreases |E|
  {
    if |E| > 0 {
      var x := E[0].span;
      if E[0].boundary == Start {
        SweepSameSource(sd, E[1..], if x in open then open else open + [x]);
      } else if x in open {
        SweepSameSource(sd, E[1..], Remove(open, x));
      }
    }
  }

  /** A closing event whose span has not opened before it, with the span
      not open now, makes the pass raise `KeyError`. */
  lemma {:induction false} SweepFailsAtEarlyEnd(sd: Sides, E: seq<Event>, open: seq<Span>, m: nat)
    requires m < |E| && E[m].boundary == End && E[m].span !in open
    requires forall i :: 0 <= i < m ==> E[i].boundary == End || E[i].span != E[m].span
    ensures Sweep(sd, E, open) == None
    decreases m
  {
    var x := E[m].span;
    if m > 0 {
      var y := E[0].span;
      assert E[1..][m - 1] == E[m];
      if E[0].boundary == Start {
        SweepFailsAtEarlyEnd(sd, E[1..], if y in open then open else open + [y], m - 1);
      } else if y in open {
        SweepFailsAtEarlyEnd(sd, E[1..], Remove(open, y), m - 1);
      }
    }
  }

  /** A span with `end < start` closes at or before its opening offset, so
      its closing event comes first and the pass raises `KeyError`. */
  lemma SweepFailsOnInvertedSpan(sd: Sides, all: seq<Span>, E: seq<Event>, x: Span)
    requires Sorted(E) && multiset(E) == multiset(Boundaries(all))
    requires x in all && x.end < x.start
    ensures Sweep(sd, E, []) == None
  {
    BoundariesEvents(all);
    assert EndEv(x) in Boundaries(all);
    assert EndEv(x) in multiset(E);
    var m :| 0 <= m < |E| && E[m] == EndEv(x);
    forall i | 0 <= i < m ensures E[i].boundary == End || E[i].span != x {
      assert E[i] in multiset(E);
      assert Before(E[i], E[m]);
    }
    SweepFailsAtEarlyEnd(sd, E, [], m);
  }

  /** For pairwise distinct spans the pass raises exactly when some span
      has `end < start`. */
  lemma SweepSucceedsIffWellFormed(sd: Sides, all: seq<Span>, E: seq<Event>)
    requires NoDup(all)
    requires Sorted(E) && multiset(E) == multiset(Boundaries(all))
    ensures Sweep(sd, E, []).Some? <==> forall s :: s in all ==> WellFormed(s)
  {
    if forall s :: s in all ==> WellFormed(s) {
      var sd' := Sides("1", "2", sd.spans2);
      SweepReportsCrossOverlaps(sd', all, E);
      SweepSucceedsIndependently(sd, sd', E, []);
    } else {
      var x :| x in all && !WellFormed(x);
      SweepFailsOnInvertedSpan(sd, all, E, x);
    }
  }
}
