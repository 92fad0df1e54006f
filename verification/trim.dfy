/** `Stats.trim`: the lossy removal of rare table entries.

    Every table of every source pair is trimmed on its own: an entry whose
    count times `ratio` falls below the table's largest count is deleted.
    Empty tables are skipped; the trimmed and examined entries are counted,
    and the final report divides one by the other, which raises
    `ZeroDivisionError` when no entry was examined at all.
 */
module SpanTrim {
  import opened Wrappers
  import opened SpanStats

  /** `m` is the largest count of the table. */
  predicate IsMax(t: Table, m: nat) {
    (exists k :: k in t && t[k] == m) && forall k :: k in t ==> t[k] <= m
  }

  /** `v * ratio < m`: the count `v` is rare against the maximum `m`. */
  predicate Rare(v: nat, ratio: int, m: nat) {
    v * ratio < m
  }

  /** The largest count of a table, 0 for the empty table. */
  ghost function MaxOf(t: Table): nat
    decreases |t.Keys|
  {
    if t == map[] then 0
    else
      var k :| k in t;
      var rest := t - {k};
      assert rest.Keys == t.Keys - {k};
      var m := MaxOf(rest);
      if t[k] > m then t[k] else m
  }

  lemma {:induction false} MaxOfIsMax(t: Table)
    requires t != map[]
    ensures IsMax(t, MaxOf(t))
    decreases |t.Keys|
  {
    var k :| k in t && MaxOf(t) == (var m := MaxOf(t - {k}); if t[k] > m then t[k] else m);
    var rest := t - {k};
    assert rest.Keys == t.Keys - {k};
    if rest != map[] {
      MaxOfIsMax(rest);
    }
    assert forall j :: j in t ==> j == k || j in rest;
  }

  /** The reference result of trimming one table: the entries whose count
      times `ratio` reaches the table's largest count. */
  ghost function TrimTable(t: Table, ratio: int): (r: Table)
    ensures r.Keys <= t.Keys
    ensures forall k :: k in r ==> r[k] == t[k]
  {
    map k | k in t && !Rare(t[k], ratio, MaxOf(t)) :: t[k]
  }

  /** An entry survives exactly when `ratio` times its count reaches every
      count of the table. */
  lemma TrimTableKeeps(t: Table, ratio: int, k: string)
    requires k in t
    ensures k in TrimTable(t, ratio) <==> forall j :: j in t ==> !Rare(t[k], ratio, t[j])
  {
    MaxOfIsMax(t);
  }

  /** With `ratio >= 1` the largest entry survives, every survivor reaches
      the maximum when multiplied by `ratio`, and the maximum is kept. */
  lemma TrimKeepsMaximum(t: Table, ratio: int)
    requires t != map[] && ratio >= 1
    ensures TrimTable(t, ratio) != map[]
    ensures MaxOf(TrimTable(t, ratio)) == MaxOf(t)
    ensures forall k :: k in TrimTable(t, ratio) ==> !Rare(t[k], ratio, MaxOf(t))
  {
    var m := MaxOf(t);
    MaxOfIsMax(t);
    var r := TrimTable(t, ratio);
    var k :| k in t && t[k] == m;
    NotRareSelf(m, ratio);
    assert k in r;
    IsMaxOfSubtable(t, r, m, k);
    MaxOfIsMax(r);
    MaxUnique(r, m, MaxOf(r));
  }

  lemma NotRareSelf(m: nat, ratio: int)
    requires ratio >= 1
    ensures !Rare(m, ratio, m)
  {
    assert m * ratio == m + m * (ratio - 1);
  }

  /** A sub-table holding the maximum entry has the same maximum. */
  lemma IsMaxOfSubtable(t: Table, r: Table, m: nat, k: string)
    requires IsMax(t, m) && r.Keys <= t.Keys
    requires forall j :: j in r ==> r[j] == t[j]
    requires k in r && r[k] == m
    ensures IsMax(r, m)
  {
  }

  lemma MaxUnique(t: Table, m1: nat, m2: nat)
    requires IsMax(t, m1) && IsMax(t, m2)
    ensures m1 == m2
  {
    var k1 :| k1 in t && t[k1] == m1;
    var k2 :| k2 in t && t[k2] == m2;
  }

  /** Trimming again with the same ratio removes nothing more. */
  lemma TrimTableIdempotent(t: Table, ratio: int)
    requires ratio >= 1
    ensures TrimTable(TrimTable(t, ratio), ratio) == TrimTable(t, ratio)
  {
    if t != map[] {
      TrimKeepsMaximum(t, ratio);
    }
  }

  /** `s.most_common(1)[0][1]` on a non-empty table. */
  method TableMax(t: Table) returns (m: nat)
    requires t != map[]
    ensures IsMax(t, m)
  {
    var todo := t.Keys;
    var k0 :| k0 in todo;
    m := t[k0];
    todo := todo - {k0};
    while todo != {}
      invariant todo <= t.Keys
      invariant exists k :: k in t && t[k] == m
      invariant forall k :: k in t && k !in todo ==> t[k] <= m
      decreases |todo|
    {
      var k :| k in todo;
      if t[k] > m {
        m := t[k];
      }
      todo := todo - {k};
    }
  }

  /** The keys of `done` whose entries fall below the threshold `m`. */
  function Dropped(t: Table, ratio: int, m: nat, done: set<string>): set<string>
    requires done <= t.Keys
  {
    set k | k in done && Rare(t[k], ratio, m)
  }

  /** One table: skipped when empty, otherwise every entry is examined and
      those below the threshold deleted. */
  method TrimOne(t: Table, ratio: int) returns (r: Table, trimmed: nat, examined: nat)
    ensures r == TrimTable(t, ratio)
    ensures examined == |t.Keys|
    ensures trimmed == |t.Keys - r.Keys|
  {
    if t == map[] {
      return t, 0, 0;
    }
    var m := TableMax(t);
    r, trimmed, examined := DropRare(t, ratio, m);
    TrimOneResult(t, ratio, m, r);
  }

  /** The state of the deletion loop: `r` is `t` without the rare entries
      outside `todo`. */
  ghost predicate DropState(t: Table, ratio: int, m: nat, todo: set<string>, r: Table) {
    && r.Keys <= t.Keys
    && (forall k {:trigger r[k]} :: k in r ==> r[k] == t[k])
    && (forall k {:trigger t[k]} :: k in t ==> (k in r <==> k in todo || !Rare(t[k], ratio, m)))
  }

  lemma DropStateStep(t: Table, ratio: int, m: nat, todo: set<string>, r: Table, k: string)
    requires DropState(t, ratio, m, todo, r) && todo <= t.Keys && k in todo
    ensures DropState(t, ratio, m, todo - {k}, if Rare(t[k], ratio, m) then r - {k} else r)
  {
  }

  /** The deletion loop for a table with maximum `m`. */
  method DropRare(t: Table, ratio: int, m: nat) returns (r: Table, trimmed: nat, examined: nat)
    ensures DropState(t, ratio, m, {}, r)
    ensures examined == |t.Keys|
    ensures trimmed == |Dropped(t, ratio, m, t.Keys)|
  {
    r, trimmed, examined := t, 0, 0;
    var todo := t.Keys;
    ghost var done: set<string> := {};
    while todo != {}
      invariant todo <= t.Keys && done == t.Keys - todo
      invariant DropState(t, ratio, m, todo, r)
      invariant examined + |todo| == |t.Keys|
      invariant trimmed == |Dropped(t, ratio, m, done)|
      decreases |todo|
    {
      var k :| k in todo;
      r, trimmed := DropEntry(t, ratio, m, todo, done, r, trimmed, k);
      examined := examined + 1;
      todo := todo - {k};
      done := done + {k};
    }
    assert done == t.Keys;
  }

  /** One step of the deletion loop: the entry `k` is examined. */
  method DropEntry(t: Table, ratio: int, m: nat, ghost todo: set<string>, ghost done: set<string>,
                   r: Table, trimmed: nat, k: string) returns (r': Table, trimmed': nat)
    requires todo <= t.Keys && done == t.Keys - todo && k in todo
    requires DropState(t, ratio, m, todo, r)
    requires trimmed == |Dropped(t, ratio, m, done)|
    ensures DropState(t, ratio, m, todo - {k}, r')
    ensures trimmed' == |Dropped(t, ratio, m, done + {k})|
    ensures |todo - {k}| == |todo| - 1
  {
    DroppedStep(t, ratio, m, done, k);
    assert todo == (todo - {k}) + {k};
    DropStateStep(t, ratio, m, todo, r, k);
    if Rare(t[k], ratio, m) {
      r', trimmed' := r - {k}, trimmed + 1;
    } else {
      r', trimmed' := r, trimmed;
    }
  }

  lemma DroppedStep(t: Table, ratio: int, m: nat, done: set<string>, k: string)
    requires done <= t.Keys && k in t && k !in done
    ensures |Dropped(t, ratio, m, done + {k})| == |Dropped(t, ratio, m, done)| + (if Rare(t[k], ratio, m) then 1 else 0)
  {
    if Rare(t[k], ratio, m) {
      assert Dropped(t, ratio, m, done + {k}) == Dropped(t, ratio, m, done) + {k};
    } else {
      assert Dropped(t, ratio, m, done + {k}) == Dropped(t, ratio, m, done);
    }
  }

  lemma TrimOneResult(t: Table, ratio: int, m: nat, r: Table)
    requires IsMax(t, m)
    requires DropState(t, ratio, m, {}, r)
    ensures r == TrimTable(t, ratio)
    ensures Dropped(t, ratio, m, t.Keys) == t.Keys - r.Keys
  {
    MaxOfIsMax(t);
    MaxUnique(t, m, MaxOf(t));
    assert r.Keys == TrimTable(t, ratio).Keys;
  }

  datatype TrimReport = TrimReport(stats: Stats, trimmed: nat, total: nat)

  /** Every text table of `p` is empty. */
  predicate NoEntries(st: Stats, p: Pair) {
    Texts(st, TP, p) == map[] && Texts(st, FP, p) == map[] && Texts(st, FN, p) == map[]
    && OverlapTexts(st, p) == map[]
  }

  /** Reference result: the tables of the pairs in `done` trimmed, all
      others kept. A table that is absent reads as empty, and trimming an
      empty table leaves it empty, so no entry needs to be created. */
  ghost function TrimmedStats(st: Stats, ratio: int, done: set<Pair>): Stats {
    st.(texts := TrimmedTexts(st.texts, ratio, done), overlaps := TrimmedOverlaps(st.overlaps, ratio, done))
  }

  ghost function TrimmedTexts(m: map<(Kind, Pair), Table>, ratio: int, done: set<Pair>): map<(Kind, Pair), Table> {
    map q | q in m :: if q.1 in done then TrimTable(m[q], ratio) else m[q]
  }

  ghost function TrimmedOverlaps(m: map<Pair, Table>, ratio: int, done: set<Pair>): map<Pair, Table> {
    map q | q in m :: if q in done then TrimTable(m[q], ratio) else m[q]
  }

  /** What the trim does to the tables: those of the given pairs are
      trimmed, all others are kept, and the counters are untouched. */
  lemma TrimmedStatsTables(st: Stats, ratio: int, done: set<Pair>)
    ensures TrimmedStats(st, ratio, done).counts == st.counts
    ensures forall k, p :: Texts(TrimmedStats(st, ratio, done), k, p)
              == if p in done then TrimTable(Texts(st, k, p), ratio) else Texts(st, k, p)
    ensures forall p :: OverlapTexts(TrimmedStats(st, ratio, done), p)
              == if p in done then TrimTable(OverlapTexts(st, p), ratio) else OverlapTexts(st, p)
  {
  }

  /** No pair of `S` has an entry in any of its tables. */
  ghost predicate AllEmpty(st: Stats, S: set<Pair>) {
    forall p {:trigger NoEntries(st, p)} :: p in S ==> NoEntries(st, p)
  }

  lemma AllEmptyStep(st: Stats, S: set<Pair>, p: Pair)
    ensures AllEmpty(st, S + {p}) <==> AllEmpty(st, S) && NoEntries(st, p)
  {
  }

  lemma NoEntriesUntrimmed(st: Stats, ratio: int, done: set<Pair>, p: Pair)
    requires p !in done
    ensures NoEntries(TrimmedStats(st, ratio, done), p) == NoEntries(st, p)
  {
    TrimmedStatsTables(st, ratio, done);
  }

  lemma TrimmedStatsNone(st: Stats, ratio: int)
    ensures TrimmedStats(st, ratio, {}) == st
  {
    var r := TrimmedStats(st, ratio, {});
    assert r.texts == st.texts;
    assert r.overlaps == st.overlaps;
  }

  /** `trim(ratio)`: every table of a pair among the sources is trimmed;
      fewer entries are trimmed than examined; and the report raises
      `ZeroDivisionError` exactly when all tables of all sources are
      empty. */
  method Trim(st: Stats, ratio: int) returns (r: Result<TrimReport>)
    ensures r.Failure? <==> AllEmpty(st, Sources(st))
    ensures r.Failure? ==> r.error == ZeroDivisionError
    ensures r.Success? ==> r.value.stats == TrimmedStats(st, ratio, Sources(st))
    ensures r.Success? ==> r.value.trimmed <= r.value.total
  {
    var cur, trimmed, total := TrimSources(st, ratio);
    if total == 0 {
      return Failure(ZeroDivisionError);
    }
    return Success(TrimReport(cur, trimmed, total));
  }

  /** The loop over the source pairs, with its two counters. */
  method TrimSources(st: Stats, ratio: int) returns (cur: Stats, trimmed: nat, total: nat)
    ensures cur == TrimmedStats(st, ratio, Sources(st))
    ensures trimmed <= total
    ensures total == 0 <==> AllEmpty(st, Sources(st))
  {
    var todo := Sources(st);
    ghost var done: set<Pair> := {};
    cur, trimmed, total := st, 0, 0;
    TrimmedStatsNone(st, ratio);
    assert AllEmpty(st, {});
    while todo != {}
      invariant todo !! done && todo + done == Sources(st)
      invariant cur == TrimmedStats(st, ratio, done)
      invariant trimmed <= total
      invariant total == 0 <==> AllEmpty(st, done)
      decreases |todo|
    {
      var p :| p in todo;
      cur, trimmed, total := TrimStep(st, done, cur, p, ratio, trimmed, total);
      todo := todo - {p};
      done := done + {p};
    }
    assert done == Sources(st);
  }

  /** One iteration of the loop over the source pairs. */
  method TrimStep(ghost st: Stats, ghost done: set<Pair>, cur: Stats, p: Pair, ratio: int, trimmed: nat, total: nat)
    returns (next: Stats, trimmed': nat, total': nat)
    requires p !in done && cur == TrimmedStats(st, ratio, done)
    requires trimmed <= total && (total == 0 <==> AllEmpty(st, done))
    ensures next == TrimmedStats(st, ratio, done + {p})
    ensures trimmed' <= total' && (total' == 0 <==> AllEmpty(st, done + {p}))
  {
    NoEntriesUntrimmed(st, ratio, done, p);
    AllEmptyStep(st, done, p);
    var a, b;
    next, a, b := TrimPair(cur, p, ratio);
    TrimmedStatsStep(st, ratio, done, p);
    trimmed' := trimmed + a;
    total' := total + b;
  }

  /** Trims the table at `q`, when there is one. */
  ghost function TrimAt<Q>(m: map<Q, Table>, q: Q, ratio: int): map<Q, Table> {
    if q in m then m[q := TrimTable(m[q], ratio)] else m
  }

  /** The tables of one pair replaced by their trimmed versions. */
  ghost function TrimPairTables(st: Stats, p: Pair, ratio: int): Stats {
    st.(texts := TrimKinds(st.texts, p, ratio),
        overlaps := TrimAt(st.overlaps, p, ratio))
  }

  lemma TrimmedStatsStep(st: Stats, ratio: int, done: set<Pair>, p: Pair)
    requires p !in done
    ensures TrimPairTables(TrimmedStats(st, ratio, done), p, ratio) == TrimmedStats(st, ratio, done + {p})
  {
    TrimmedTextsStep(st.texts, ratio, done, p);
    TrimmedOverlapsStep(st.overlaps, ratio, done, p);
  }

  /** The three count tables of `p` trimmed. */
  ghost function TrimKinds(T: map<(Kind, Pair), Table>, p: Pair, ratio: int): map<(Kind, Pair), Table> {
    TrimAt(TrimAt(TrimAt(T, (TP, p), ratio), (FP, p), ratio), (FN, p), ratio)
  }

  lemma TrimKindsAt(T: map<(Kind, Pair), Table>, p: Pair, ratio: int, q: (Kind, Pair))
    ensures q in TrimKinds(T, p, ratio) <==> q in T
    ensures q in T ==> TrimKinds(T, p, ratio)[q] == if q.1 == p then TrimTable(T[q], ratio) else T[q]
  {
    if q.1 == p {
      match q.0
      case TP => assert q == (TP, p);
      case FP => assert q == (FP, p);
      case FN => assert q == (FN, p);
    }
  }

  lemma TrimmedTextsStep(m: map<(Kind, Pair), Table>, ratio: int, done: set<Pair>, p: Pair)
    requires p !in done
    ensures TrimKinds(TrimmedTexts(m, ratio, done), p, ratio) == TrimmedTexts(m, ratio, done + {p})
  {
    var T := TrimmedTexts(m, ratio, done);
    var A := TrimKinds(T, p, ratio);
    var B := TrimmedTexts(m, ratio, done + {p});
    forall q ensures q in A <==> q in B {
      TrimKindsAt(T, p, ratio, q);
    }
    forall q | q in A ensures A[q] == B[q] {
      TrimKindsAt(T, p, ratio, q);
    }
  }

  lemma TrimmedOverlapsStep(m: map<Pair, Table>, ratio: int, done: set<Pair>, p: Pair)
    requires p !in done
    ensures TrimAt(TrimmedOverlaps(m, ratio, done), p, ratio) == TrimmedOverlaps(m, ratio, done + {p})
  {
  }

  /** The four tables of one source pair. */
  method TrimPair(st: Stats, p: Pair, ratio: int) returns (r: Stats, trimmed: nat, total: nat)
    ensures r == TrimPairTables(st, p, ratio)
    ensures trimmed <= total
    ensures total == 0 <==> NoEntries(st, p)
  {
    var texts, a1, b1 := TrimEntry(st.texts, (TP, p), ratio);
    var a2, b2, a3, b3, a4, b4;
    texts, a2, b2 := TrimEntry(texts, (FP, p), ratio);
    texts, a3, b3 := TrimEntry(texts, (FN, p), ratio);
    var overlaps;
    overlaps, a4, b4 := TrimEntry(st.overlaps, p, ratio);
    r := st.(texts := texts, overlaps := overlaps);
    trimmed := a1 + a2 + a3 + a4;
    total := b1 + b2 + b3 + b4;
  }

  /** One table of a `defaultdict`, trimmed in place. */
  method TrimEntry<Q>(m: map<Q, Table>, q: Q, ratio: int) returns (r: map<Q, Table>, trimmed: nat, total: nat)
    ensures r == TrimAt(m, q, ratio)
    ensures trimmed <= total
    ensures total == 0 <==> TableAt(m, q) == map[]
  {
    var t;
    t, trimmed, total := TrimOne(TableAt(m, q), ratio);
    CountBounds(TableAt(m, q), t);
    r := if q in m then m[q := t] else m;
  }

  lemma CountBounds(t: Table, r: Table)
    requires r.Keys <= t.Keys
    ensures |t.Keys - r.Keys| <= |t.Keys|
    ensures |t.Keys| == 0 <==> t == map[]
  {
    assert t.Keys - r.Keys <= t.Keys;
    if |t.Keys| == 0 {
      assert t.Keys == {};
    }
  }
}
