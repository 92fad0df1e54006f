/** `select_document_for_output`: whether a compared document goes to the
    sample written for inspection. The statistics of one document are read
    for the smallest of its source pairs in Python's tuple order; the
    document qualifies when it has annotations, at least two distinct
    lower-cased texts, at least one annotation per hundred characters, and
    an F-score strictly between one half and one.
 */
module DocumentSelection {
  import opened Wrappers
  import opened PyStrings
  import opened SpanStats

  /** Python's order on `(gold, pred)` tuples. */
  predicate PairLess(a: Pair, b: Pair) {
    Less(a.0, b.0) || (a.0 == b.0 && Less(a.1, b.1))
  }

  lemma PairLessIrreflexive(a: Pair)
    ensures !PairLess(a, a)
  {
    LessIrreflexive(a.0);
    LessIrreflexive(a.1);
  }

  lemma PairLessTransitive(a: Pair, b: Pair, c: Pair)
    requires PairLess(a, b) && PairLess(b, c)
    ensures PairLess(a, c)
  {
    if Less(a.0, b.0) && Less(b.0, c.0) {
      LessTransitive(a.0, b.0, c.0);
    } else if Less(a.1, b.1) && Less(b.1, c.1) {
      LessTransitive(a.1, b.1, c.1);
    }
  }

  lemma PairLessTotal(a: Pair, b: Pair)
    ensures a == b || PairLess(a, b) || PairLess(b, a)
  {
    LessTotal(a.0, b.0);
    LessTotal(a.1, b.1);
  }

  /** `m` is `sorted(S)[0]`. */
  ghost predicate IsLeast(S: set<Pair>, m: Pair) {
    m in S && forall x :: x in S ==> x == m || PairLess(m, x)
  }

  lemma LeastUnique(S: set<Pair>, m: Pair, m': Pair)
    requires IsLeast(S, m) && IsLeast(S, m')
    ensures m == m'
  {
    if m != m' {
      assert PairLess(m, m') && PairLess(m', m);
      PairLessTransitive(m, m', m);
      PairLessIrreflexive(m);
    }
  }

  /** The first element of the sorted source pairs, by a linear scan. */
  method LeastPair(S: set<Pair>) returns (m: Pair)
    requires S != {}
    ensures IsLeast(S, m)
  {
    m :| m in S;
    var todo := S - {m};
    while todo != {}
      invariant todo <= S && m in S && m !in todo
      invariant forall x :: x in S && x !in todo ==> x == m || PairLess(m, x)
      decreases |todo|
    {
      var x :| x in todo;
      PairLessTotal(x, m);
      if PairLess(x, m) {
        forall y | y in S && y !in todo && y != m ensures PairLess(x, y) {
          PairLessTransitive(x, m, y);
        }
        m := x;
      }
      todo := todo - {x};
    }
  }

  /** `set(t.lower() for t in texts)`. */
  function LowerTexts(texts: set<string>): set<string> {
    set t | t in texts :: Lower(t)
  }

  /** The selection rule for the pair `p` of a document of `len`
      characters; `tagged_per_100_words` is computed as an exact quotient. */
  predicate Gate(st: Stats, p: Pair, len: nat)
    requires len > 0
  {
    && Total(st, p) >= 1
    && |LowerTexts(UniqueTexts(st, p))| >= 2
    && (100 * Total(st, p)) as real / len as real >= 1.0
    && 0.5 < FScore(st, p) < 1.0
  }

  /** `select_document_for_output`. `IndexError` when the statistics have
      no source pair, `ZeroDivisionError` for an empty text (the density is
      computed before any test). */
  method SelectDocumentForOutput(text: string, st: Stats) returns (r: Result<bool>)
    ensures Sources(st) == {} ==> r == Failure(IndexError)
    ensures Sources(st) != {} && |text| == 0 ==> r == Failure(ZeroDivisionError)
    ensures Sources(st) != {} && |text| > 0 ==>
      r.Success? && forall m :: IsLeast(Sources(st), m) ==> (r.value <==> Gate(st, m, |text|))
  {
    var S := Sources(st);
    if S == {} {
      return Failure(IndexError);
    }
    var p := LeastPair(S);
    if |text| == 0 {
      return Failure(ZeroDivisionError);
    }
    forall m | IsLeast(S, m) ensures m == p {
      LeastUnique(S, m, p);
    }
    var density := (100 * Total(st, p)) as real / |text| as real;
    var lowered := LowerTexts(UniqueTexts(st, p));
    if Total(st, p) < 1 {
      return Success(false);
    }
    if |lowered| < 2 {
      return Success(false);
    }
    if density < 1.0 {
      return Success(false);
    }
    var f := FScore(st, p);
    if f >= 1.0 {
      return Success(false);
    } else if f <= 0.5 {
      return Success(false);
    }
    return Success(true);
  }

  /** The rule in integers: the density test is `100 total >= len`, and
      the F-score window is `fp + fn < 2 tp` with at least one error. */
  lemma GateIff(st: Stats, p: Pair, len: nat)
    requires len > 0
    ensures var tp, fp, fn := Count(st, TP, p), Count(st, FP, p), Count(st, FN, p);
      Gate(st, p, len) <==>
        && tp + fp + fn >= 1
        && |LowerTexts(UniqueTexts(st, p))| >= 2
        && 100 * (tp + fp + fn) >= len
        && fp + fn < 2 * tp
        && fp + fn > 0
  {
    FScoreBounds(st, p);
    var n := (100 * Total(st, p)) as real;
    DivMul(n, len as real);
    QuotientCompare(n / len as real, n, len as real, 1.0);
  }

  /** A document whose spans all agree is never selected, nor one without
      true positives. */
  lemma GateNeedsDisagreement(st: Stats, p: Pair, len: nat)
    requires len > 0
    requires (Count(st, FP, p) == 0 && Count(st, FN, p) == 0) || Count(st, TP, p) == 0
    ensures !Gate(st, p, len)
  {
    GateIff(st, p, len);
  }
}
