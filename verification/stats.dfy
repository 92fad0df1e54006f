/** The `Stats` aggregator of the span comparison.

    Scalar counters (`Counter` objects: a missing key reads as 0) and
    per-text frequency tables (`defaultdict` of `Counter`: a missing pair
    reads as an empty table) are kept per ordered pair of source names
    `(gold, pred)`. The three scalar counters and their three text tables
    are indexed here by a `Kind`; the overlap table has no scalar
    counterpart.
 */
module SpanStats {
  import opened PyStrings

  type Pair = (string, string)

  /** A `Counter` of texts: the keys present and their counts. */
  type Table = map<string, nat>

  datatype Kind = TP | FP | FN

  /** `Counter` lookup: 0 for a missing key. */
  function Get<K>(m: map<K, nat>, k: K): nat {
    if k in m then m[k] else 0
  }

  /** `c[k] += 1`, which also creates a missing key. */
  function Incr<K(!new)>(m: map<K, nat>, k: K): (r: map<K, nat>)
    ensures r.Keys == m.Keys + {k}
    ensures forall j :: Get(r, j) == Get(m, j) + (if j == k then 1 else 0)
  {
    m[k := Get(m, k) + 1]
  }

  /** `defaultdict(Counter)` lookup: the empty table for a missing pair. */
  function TableAt<K>(m: map<K, Table>, k: K): Table {
    if k in m then m[k] else map[]
  }

  /** `d[k][t] += 1`. */
  function BumpAt<K(!new)>(m: map<K, Table>, k: K, t: string): (r: map<K, Table>)
    ensures forall j :: j != k ==> TableAt(r, j) == TableAt(m, j)
    ensures TableAt(r, k) == Incr(TableAt(m, k), t)
  {
    m[k := Incr(TableAt(m, k), t)]
  }

  lemma IncrCommute<K(!new)>(m: map<K, nat>, a: K, b: K)
    ensures Incr(Incr(m, a), b) == Incr(Incr(m, b), a)
  {
  }

  lemma BumpAtCommute<K(!new)>(m: map<K, Table>, a: K, t: string, b: K, u: string)
    ensures BumpAt(BumpAt(m, a, t), b, u) == BumpAt(BumpAt(m, b, u), a, t)
  {
    if a == b {
      IncrCommute(TableAt(m, a), t, u);
    }
  }

  datatype Stats = Stats(
    counts: map<(Kind, Pair), nat>,     // tp_by_source, fp_by_source, fn_by_source
    texts: map<(Kind, Pair), Table>,    // tp/fp/fn_by_source_and_text
    overlaps: map<Pair, Table>)         // overlap_by_source_and_text

  function Count(st: Stats, k: Kind, p: Pair): nat {
    Get(st.counts, (k, p))
  }

  function Texts(st: Stats, k: Kind, p: Pair): Table {
    TableAt(st.texts, (k, p))
  }

  function OverlapTexts(st: Stats, p: Pair): Table {
    TableAt(st.overlaps, p)
  }

  /** `Stats.sources`: every pair that is a key of a scalar counter. */
  function Sources(st: Stats): set<Pair> {
    set q | q in st.counts :: q.1
  }

  /** `Stats([source1, source2])`: the three counters hold the pair
      `(source1, source2)` with count 0; the tables are empty. */
  function NewStats(source1: string, source2: string): (r: Stats)
    ensures Sources(r) == {(source1, source2)}
    ensures forall k, p :: Count(r, k, p) == 0
    ensures forall k, p :: Texts(r, k, p) == map[]
    ensures forall p :: OverlapTexts(r, p) == map[]
  {
    var s := (source1, source2);
    var r := Stats(map[(TP, s) := 0, (FP, s) := 0, (FN, s) := 0], map[], map[]);
    assert (TP, s) in r.counts;
    r
  }

  /** `add_tp`, `add_fp` and `add_fn`: one more span of kind `k` for the
      direction `(gold, pred)`, recorded under the span's text. */
  function AddCount(st: Stats, k: Kind, gold: string, pred: string, text: string): (r: Stats)
    ensures Sources(r) == Sources(st) + {(gold, pred)}
    ensures forall k', p :: Count(r, k', p) == Count(st, k', p) + (if (k', p) == (k, (gold, pred)) then 1 else 0)
    ensures forall k', p :: (k', p) != (k, (gold, pred)) ==> Texts(r, k', p) == Texts(st, k', p)
    ensures Texts(r, k, (gold, pred)) == Incr(Texts(st, k, (gold, pred)), text)
    ensures r.overlaps == st.overlaps
  {
    var r := st.(counts := Incr(st.counts, (k, (gold, pred))), texts := BumpAt(st.texts, (k, (gold, pred)), text));
    assert (k, (gold, pred)) in r.counts;
    r
  }

  function AddTp(st: Stats, gold: string, pred: string, text: string): Stats {
    AddCount(st, TP, gold, pred, text)
  }

  function AddFp(st: Stats, gold: string, pred: string, text: string): Stats {
    AddCount(st, FP, gold, pred, text)
  }

  function AddFn(st: Stats, gold: string, pred: string, text: string): Stats {
    AddCount(st, FN, gold, pred, text)
  }

  /** The key of the overlap table: both texts separated by a TAB. */
  function OverlapKey(text1: string, text2: string): string {
    text1 + "\t" + text2
  }

  /** `add_overlap`: only the overlap table changes; the scalar counters,
      and hence the set of sources, do not. */
  function AddOverlap(st: Stats, gold: string, pred: string, text1: string, text2: string): (r: Stats)
    ensures r.counts == st.counts && r.texts == st.texts
    ensures forall p :: p != (gold, pred) ==> OverlapTexts(r, p) == OverlapTexts(st, p)
    ensures OverlapTexts(r, (gold, pred)) == Incr(OverlapTexts(st, (gold, pred)), OverlapKey(text1, text2))
  {
    st.(overlaps := BumpAt(st.overlaps, (gold, pred), OverlapKey(text1, text2)))
  }

  /** Recording operations commute: the statistics do not depend on the
      order in which spans are booked. */
  lemma AddCountCommute(st: Stats, k1: Kind, g1: string, p1: string, t1: string,
                        k2: Kind, g2: string, p2: string, t2: string)
    ensures AddCount(AddCount(st, k1, g1, p1, t1), k2, g2, p2, t2)
         == AddCount(AddCount(st, k2, g2, p2, t2), k1, g1, p1, t1)
  {
    IncrCommute(st.counts, (k1, (g1, p1)), (k2, (g2, p2)));
    BumpAtCommute(st.texts, (k1, (g1, p1)), t1, (k2, (g2, p2)), t2);
  }

  lemma AddOverlapCommute(st: Stats, g1: string, p1: string, a1: string, b1: string,
                          g2: string, p2: string, a2: string, b2: string)
    ensures AddOverlap(AddOverlap(st, g1, p1, a1, b1), g2, p2, a2, b2)
         == AddOverlap(AddOverlap(st, g2, p2, a2, b2), g1, p1, a1, b1)
  {
    BumpAtCommute(st.overlaps, (g1, p1), OverlapKey(a1, b1), (g2, p2), OverlapKey(a2, b2));
  }

  lemma AddCountOverlapCommute(st: Stats, k: Kind, g1: string, p1: string, t: string,
                               g2: string, p2: string, a: string, b: string)
    ensures AddCount(AddOverlap(st, g2, p2, a, b), k, g1, p1, t)
         == AddOverlap(AddCount(st, k, g1, p1, t), g2, p2, a, b)
  {
  }

  // ---------------------------------------------------------------------
  // Merging.

  /** Key-wise sum of two counters; the keys are the union. */
  function AddTables<K(!new)>(a: map<K, nat>, b: map<K, nat>): (r: map<K, nat>)
    ensures r.Keys == a.Keys + b.Keys
    ensures forall k :: Get(r, k) == Get(a, k) + Get(b, k)
  {
    map k | k in a.Keys + b.Keys :: Get(a, k) + Get(b, k)
  }

  function KindKeys(S: set<Pair>): (r: set<(Kind, Pair)>)
    ensures forall q: (Kind, Pair) :: q in r <==> q.1 in S
  {
    var r := (set p | p in S :: (TP, p)) + (set p | p in S :: (FP, p)) + (set p | p in S :: (FN, p));
    assert forall q: (Kind, Pair) :: q.1 in S ==> q in r by {
      forall q: (Kind, Pair) | q.1 in S ensures q in r {
        if q.0 == TP {
          assert q == (TP, q.1);
        } else if q.0 == FP {
          assert q == (FP, q.1);
        } else {
          assert q == (FN, q.1);
        }
      }
    }
    r
  }

  /** The counter part of `add_stats`. */
  function MergeCounts(a: map<(Kind, Pair), nat>, b: map<(Kind, Pair), nat>, S: set<Pair>): (r: map<(Kind, Pair), nat>)
    requires forall q :: q in b ==> q.1 in S
    ensures r.Keys == a.Keys + KindKeys(S)
    ensures forall q :: Get(r, q) == Get(a, q) + Get(b, q)
  {
    map q | q in a.Keys + KindKeys(S) :: Get(a, q) + (if q.1 in S then Get(b, q) else 0)
  }

  /** The table part of `add_stats`: pairs in `S` are merged key-wise. */
  function MergeTables<Q(!new)>(a: map<Q, Table>, b: map<Q, Table>, S: set<Q>): (r: map<Q, Table>)
    ensures forall q :: q in S ==> TableAt(r, q) == AddTables(TableAt(a, q), TableAt(b, q))
    ensures forall q :: q !in S ==> TableAt(r, q) == TableAt(a, q)
  {
    map q | q in a.Keys + S :: if q in S then AddTables(TableAt(a, q), TableAt(b, q)) else a[q]
  }

  /** `add_stats`: for every pair among `other`'s sources, each counter and
      each table entry of `st` grows by `other`'s value (creating missing
      keys); nothing else changes. */
  function AddStats(st: Stats, other: Stats): (r: Stats)
    ensures Sources(r) == Sources(st) + Sources(other)
    ensures forall k, p :: Count(r, k, p) == Count(st, k, p) + Count(other, k, p)
    ensures forall k, p :: p in Sources(other) ==> Texts(r, k, p) == AddTables(Texts(st, k, p), Texts(other, k, p))
    ensures forall k, p :: p !in Sources(other) ==> Texts(r, k, p) == Texts(st, k, p)
    ensures forall p :: p in Sources(other) ==> OverlapTexts(r, p) == AddTables(OverlapTexts(st, p), OverlapTexts(other, p))
    ensures forall p :: p !in Sources(other) ==> OverlapTexts(r, p) == OverlapTexts(st, p)
  {
    var S := Sources(other);
    var r := Stats(MergeCounts(st.counts, other.counts, S),
                   MergeTables(st.texts, other.texts, KindKeys(S)),
                   MergeTables(st.overlaps, other.overlaps, S));
    MergedSources(st, other, r);
    forall k, p ensures Count(r, k, p) == Count(st, k, p) + Count(other, k, p) {
    }
    forall k, p ensures Texts(r, k, p) == if p in S then AddTables(Texts(st, k, p), Texts(other, k, p)) else Texts(st, k, p) {
      assert (k, p) in KindKeys(S) <==> p in S;
    }
    r
  }

  lemma MergedSources(st: Stats, other: Stats, r: Stats)
    requires r.counts.Keys == st.counts.Keys + KindKeys(Sources(other))
    ensures Sources(r) == Sources(st) + Sources(other)
  {
    var S := Sources(other);
    forall p | p in S ensures p in Sources(r) {
      var q :| q in other.counts && q.1 == p;
      assert q in r.counts;
    }
    forall p | p in Sources(r) ensures p in Sources(st) + S {
      var q :| q in r.counts && q.1 == p;
      if q !in st.counts {
        assert q in KindKeys(S);
      }
    }
  }

  /** Merging is commutative on the counters, and so on everything
      precision, recall and F-score are computed from. */
  lemma AddStatsCountsCommute(a: Stats, b: Stats, k: Kind, p: Pair)
    ensures Count(AddStats(a, b), k, p) == Count(AddStats(b, a), k, p)
  {
  }

  /** Merging is commutative on the source pairs. */
  lemma AddStatsSourcesCommute(a: Stats, b: Stats)
    ensures Sources(AddStats(a, b)) == Sources(AddStats(b, a))
  {
  }

  /** Merging is associative on the counters. */
  lemma AddStatsCountsAssociative(a: Stats, b: Stats, c: Stats, k: Kind, p: Pair)
    ensures Count(AddStats(AddStats(a, b), c), k, p) == Count(AddStats(a, AddStats(b, c)), k, p)
  {
  }

  /** The counters of a two-source comparison mirror each other: TP is
      the same in both directions, and one direction's FN is the other's
      FP. */
  predicate Symmetric(st: Stats, a: string, b: string) {
    && Count(st, TP, (a, b)) == Count(st, TP, (b, a))
    && Count(st, FN, (a, b)) == Count(st, FP, (b, a))
    && Count(st, FP, (a, b)) == Count(st, FN, (b, a))
  }

  /** Merging preserves the mirroring. */
  lemma AddStatsSymmetric(st: Stats, other: Stats, a: string, b: string)
    requires Symmetric(st, a, b) && Symmetric(other, a, b)
    ensures Symmetric(AddStats(st, other), a, b)
  {
    AddStatsMirror(st, other, TP, (a, b), TP, (b, a));
    AddStatsMirror(st, other, FN, (a, b), FP, (b, a));
    AddStatsMirror(st, other, FP, (a, b), FN, (b, a));
  }

  lemma AddStatsMirror(st: Stats, other: Stats, k1: Kind, p1: Pair, k2: Kind, p2: Pair)
    requires Count(st, k1, p1) == Count(st, k2, p2) && Count(other, k1, p1) == Count(other, k2, p2)
    ensures Count(AddStats(st, other), k1, p1) == Count(AddStats(st, other), k2, p2)
  {
  }

  /** Tables recorded for pairs that are not among `other`'s sources are
      not carried over by a merge. */
  lemma AddStatsDropsForeignTables(st: Stats, other: Stats, p: Pair, t: string)
    requires p !in Sources(other) && p !in Sources(st)
    requires Get(OverlapTexts(other, p), t) > 0
    ensures Get(OverlapTexts(AddStats(st, other), p), t) == Get(OverlapTexts(st, p), t)
  {
  }

  // ---------------------------------------------------------------------
  // Summaries.

  /** `total`: TP + FP + FN for a direction. */
  function Total(st: Stats, p: Pair): nat {
    Count(st, TP, p) + Count(st, FP, p) + Count(st, FN, p)
  }

  /** `unique_texts`: the texts recorded as TP, FP or FN for a direction
      (only their set matters to the callers). */
  function UniqueTexts(st: Stats, p: Pair): set<string> {
    Texts(st, TP, p).Keys + Texts(st, FP, p).Keys + Texts(st, FN, p).Keys
  }

  /** `tp/(tp+fp) if tp+fp else 0`, computed exactly. */
  function Ratio(n: nat, d: nat): (r: real)
    requires n <= d
    ensures 0.0 <= r <= 1.0
    ensures r == 0.0 <==> n == 0
    ensures r == 1.0 <==> 0 < n == d
  {
    if d != 0 then n as real / d as real else 0.0
  }

  function Precision(st: Stats, p: Pair): (r: real)
    ensures 0.0 <= r <= 1.0
    ensures Count(st, TP, p) + Count(st, FP, p) == 0 ==> r == 0.0
  {
    Ratio(Count(st, TP, p), Count(st, TP, p) + Count(st, FP, p))
  }

  function Recall(st: Stats, p: Pair): (r: real)
    ensures 0.0 <= r <= 1.0
    ensures Count(st, TP, p) + Count(st, FN, p) == 0 ==> r == 0.0
  {
    Ratio(Count(st, TP, p), Count(st, TP, p) + Count(st, FN, p))
  }

  /** `2*prec*rec/(prec+rec) if prec+rec else 0`. */
  function HarmonicMean(prec: real, rec: real): real
    requires 0.0 <= prec && 0.0 <= rec
  {
    if prec + rec != 0.0 then 2.0 * prec * rec / (prec + rec) else 0.0
  }

  function FScore(st: Stats, p: Pair): real {
    HarmonicMean(Precision(st, p), Recall(st, p))
  }

  /** The F-score in closed form: `2tp / (2tp + fp + fn)`, and 0 without
      true positives. */
  lemma FScoreClosedForm(st: Stats, p: Pair)
    ensures var tp, fp, fn := Count(st, TP, p), Count(st, FP, p), Count(st, FN, p);
      FScore(st, p) == if tp == 0 then 0.0 else (2 * tp) as real / (2 * tp + fp + fn) as real
  {
    var tp, fp, fn := Count(st, TP, p), Count(st, FP, p), Count(st, FN, p);
    if tp > 0 {
      HarmonicClosedForm(tp, fp, fn);
    }
  }

  lemma HarmonicClosedForm(tp: nat, fp: nat, fn: nat)
    requires tp > 0
    ensures HarmonicMean(Ratio(tp, tp + fp), Ratio(tp, tp + fn)) == (2 * tp) as real / (2 * tp + fp + fn) as real
  {
    var a, b, t := (tp + fp) as real, (tp + fn) as real, tp as real;
    assert Ratio(tp, tp + fp) == t / a;
    assert Ratio(tp, tp + fn) == t / b;
    assert (2 * tp) as real == 2.0 * t;
    assert (2 * tp + fp + fn) as real == a + b;
    HarmonicOfQuotients(t, a, b);
  }

  /** `t/a` and `t/b` have the harmonic mean `2t/(a+b)`. */
  lemma HarmonicOfQuotients(t: real, a: real, b: real)
    requires t > 0.0 && a > 0.0 && b > 0.0
    ensures HarmonicMean(t / a, t / b) == 2.0 * t / (a + b)
  {
    var P, R := t / a, t / b;
    var G := 2.0 * t / (a + b);
    DivMul(t, a);
    DivMul(t, b);
    DivMul(2.0 * t, a + b);
    DivPos(t, a);
    DivPos(t, b);
    HarmonicSolution(a, b, t, P, R, G);
    var F := 2.0 * P * R / (P + R);
    DivMul(2.0 * P * R, P + R);
    CancelFactor(F, G, P + R, 2.0 * P * R);
  }

  lemma DivMul(x: real, y: real)
    requires y != 0.0
    ensures (x / y) * y == x
  {
  }

  lemma DivPos(x: real, y: real)
    requires x > 0.0 && y > 0.0
    ensures x / y > 0.0
  {
  }

  /** `G = 2t/(a+b)` solves `G (P + R) = 2 P R` for `P = t/a`, `R = t/b`. */
  lemma HarmonicSolution(a: real, b: real, t: real, P: real, R: real, G: real)
    requires a > 0.0 && b > 0.0
    requires P * a == t && R * b == t && G * (a + b) == 2.0 * t
    ensures G * (P + R) == 2.0 * P * R
  {
    var lhs := G * (P + R);
    var rhs := 2.0 * P * R;
    assert lhs * (a * b) == G * (P * a) * b + G * (R * b) * a;
    assert G * (P * a) * b + G * (R * b) * a == t * (G * (a + b));
    assert rhs * (a * b) == 2.0 * (P * a) * (R * b);
    assert lhs * (a * b) == rhs * (a * b);
    CancelFactor(lhs, rhs, a * b, rhs * (a * b));
  }

  lemma CancelFactor(x: real, y: real, z: real, w: real)
    requires z != 0.0 && x * z == w && y * z == w
    ensures x == y
  {
    assert (x - y) * z == 0.0;
  }

  /** The F-score lies in [0, 1]; it is 1 exactly for perfect agreement
      and exceeds one half exactly when `2tp > fp + fn`. */
  lemma FScoreBounds(st: Stats, p: Pair)
    ensures var tp, fp, fn := Count(st, TP, p), Count(st, FP, p), Count(st, FN, p);
      && 0.0 <= FScore(st, p) <= 1.0
      && (FScore(st, p) == 1.0 <==> tp > 0 && fp == 0 && fn == 0)
      && (FScore(st, p) > 0.5 <==> 2 * tp > fp + fn)
  {
    FScoreClosedForm(st, p);
    var tp, fp, fn := Count(st, TP, p), Count(st, FP, p), Count(st, FN, p);
    if tp > 0 {
      ClosedFormBounds(tp, fp, fn);
    }
  }

  lemma ClosedFormBounds(tp: nat, fp: nat, fn: nat)
    requires tp > 0
    ensures var F := (2 * tp) as real / (2 * tp + fp + fn) as real;
      && 0.0 <= F <= 1.0
      && (F == 1.0 <==> fp == 0 && fn == 0)
      && (F > 0.5 <==> 2 * tp > fp + fn)
  {
    var n, d := (2 * tp) as real, (2 * tp + fp + fn) as real;
    DivMul(n, d);
    DivPos(n, d);
    QuotientCompare(n / d, n, d, 1.0);
    QuotientCompare(n / d, n, d, 0.5);
    assert d == n + (fp + fn) as real;
  }

  /** Comparing a quotient `F = n/d` with `c` compares `n` with `c d`. */
  lemma QuotientCompare(F: real, n: real, d: real, c: real)
    requires d > 0.0 && F * d == n
    ensures F < c <==> n < c * d
    ensures F == c <==> n == c * d
    ensures F > c <==> n > c * d
  {
    MulCompare(F, c, d);
    MulCompare(c, F, d);
  }

  /** Multiplying by a positive number preserves strict order. */
  lemma MulCompare(x: real, y: real, d: real)
    requires d > 0.0
    ensures x < y <==> x * d < y * d
  {
    if x < y {
      assert (y - x) * d > 0.0;
    } else {
      assert (x - y) * d >= 0.0;
    }
  }
}
