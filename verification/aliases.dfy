/** Choosing one alias per protein (`filter_protein_aliases.py`).

    Each row of the alias file names a protein, an alias and the
    whitespace-separated sources that give it. Only sources on the priority
    list are collected, one `(alias, source)` entry per listed source;
    proteins are kept in the order in which they first receive an entry.
    A protein with at least two entries gets one output line: the first of
    its entries whose source comes earliest in the priority list (the
    source sorts stably by that position and takes the head).
 */
module ProteinAliases {
  import opened Wrappers
  import opened PyStrings
  import opened Seqs

  /** `SOURCE_PRIORITY`; `TARGET_SOURCES` is the set of its elements. */
  const SourcePriority: seq<string> := ["BLAST_UniProt_DE_RecName", "Ensembl_UniProt_DE_RecName"]

  predicate IsTarget(s: string) {
    s in SourcePriority
  }

  /** `SOURCE_PRIORITY.index(s)`: the position of `s` in the list. */
  function Priority(s: string): (k: nat)
    requires IsTarget(s)
    ensures k < |SourcePriority| && SourcePriority[k] == s
  {
    if s == SourcePriority[0] then 0 else 1
  }

  datatype Row = Row(proteinId: string, alias: string, sources: string)

  /** An `(alias, source)` pair. */
  type Entry = (string, string)

  /** One data line: trailing newlines dropped, exactly three TAB-separated
      fields, otherwise the `ValueError` of tuple unpacking. */
  function ParseRow(line: string): (r: Result<Row>)
    ensures r.Failure? <==> |Split(RStrip(line, '\n'), '\t')| != 3
    ensures r.Failure? ==> r.error == ValueError
  {
    var f := Split(RStrip(line, '\n'), '\t');
    if |f| != 3 then Failure(ValueError) else Success(Row(f[0], f[1], f[2]))
  }

  /** The data lines after the header, parsed in order; a file without a
      header line is the `StopIteration` of `next(f)`. */
  function ParseRows(lines: seq<string>): (r: Result<seq<Row>>)
    ensures |lines| == 0 ==> r == Failure(StopIteration)
    ensures |lines| > 0 && r.Failure? ==> r.error == ValueError
    ensures r.Success? ==> |r.value| == |lines| - 1
    ensures r.Success? ==> forall i :: 1 <= i < |lines| ==> ParseRow(lines[i]) == Success(r.value[i - 1])
    ensures |lines| > 0 ==> (r.Failure? <==> exists i :: 1 <= i < |lines| && ParseRow(lines[i]).Failure?)
  {
    if |lines| == 0 then Failure(StopIteration) else ParseDataRows(lines[1..])
  }

  function ParseDataRows(lines: seq<string>): (r: Result<seq<Row>>)
    ensures r.Failure? ==> r.error == ValueError
    ensures r.Success? ==> |r.value| == |lines|
    ensures r.Success? ==> forall i :: 0 <= i < |lines| ==> ParseRow(lines[i]) == Success(r.value[i])
    ensures r.Failure? <==> exists i :: 0 <= i < |lines| && ParseRow(lines[i]).Failure?
    decreases |lines|
  {
    if |lines| == 0 then Success([])
    else
      var row :- ParseRow(lines[0]);
      var rest :- ParseDataRows(lines[1..]);
      assert forall i :: 1 <= i < |lines| ==> lines[i] == lines[1..][i - 1];
      Success([row] + rest)
  }

  /** The entries one row contributes: its alias paired with each of its
      sources that is a target, in order. */
  function TargetEntries(alias: string, sources: seq<string>): (r: seq<Entry>)
    ensures forall k :: 0 <= k < |r| ==> r[k].0 == alias && IsTarget(r[k].1)
    ensures forall s :: (alias, s) in r <==> s in sources && IsTarget(s)
    ensures |r| <= |sources|
    decreases |sources|
  {
    if |sources| == 0 then []
    else
      var rest := TargetEntries(alias, sources[1..]);
      assert forall s :: s in sources <==> s == sources[0] || s in sources[1..];
      if IsTarget(sources[0]) then [(alias, sources[0])] + rest else rest
  }

  function RowEntries(row: Row): seq<Entry> {
    TargetEntries(row.alias, SplitWs(row.sources))
  }

  /** The `defaultdict(list)` of entries: its keys in insertion order and
      the lists. A key is created by the first append to it. */
  datatype Table = Table(order: seq<string>, entries: map<string, seq<Entry>>)

  function AddRow(t: Table, row: Row): Table {
    var es := RowEntries(row);
    if es == [] then t
    else if row.proteinId in t.entries then
      t.(entries := t.entries[row.proteinId := t.entries[row.proteinId] + es])
    else Table(t.order + [row.proteinId], t.entries[row.proteinId := es])
  }

  /** The collection loop over all rows. */
  function Collect(rows: seq<Row>): Table
    decreases |rows|
  {
    if |rows| == 0 then Table([], map[]) else AddRow(Collect(rows[..|rows| - 1]), rows[|rows| - 1])
  }

  predicate AllTargets(es: seq<Entry>) {
    forall k :: 0 <= k < |es| ==> IsTarget(es[k].1)
  }

  /** Reference: the entries of protein `p`, row after row. */
  function Group(rows: seq<Row>, p: string): (r: seq<Entry>)
    ensures AllTargets(r)
    decreases |rows|
  {
    if |rows| == 0 then []
    else Group(rows[..|rows| - 1], p) + (if rows[|rows| - 1].proteinId == p then RowEntries(rows[|rows| - 1]) else [])
  }

  /** Some row of `p` contributes an entry. */
  predicate HasEntries(rows: seq<Row>, p: string) {
    exists k :: 0 <= k < |rows| && rows[k].proteinId == p && RowEntries(rows[k]) != []
  }

  predicate WellKept(t: Table) {
    && NoDup(t.order)
    && (forall p :: p in t.order ==> p in t.entries)
    && (forall p :: p in t.entries ==> p in t.order)
  }

  lemma GroupEmpty(rows: seq<Row>, p: string)
    ensures Group(rows, p) == [] <==> !HasEntries(rows, p)
    decreases |rows|
  {
    if |rows| > 0 {
      var init := rows[..|rows| - 1];
      GroupEmpty(init, p);
      assert forall k :: 0 <= k < |init| ==> init[k] == rows[k];
      if HasEntries(rows, p) && !HasEntries(init, p) {
        var k :| 0 <= k < |rows| && rows[k].proteinId == p && RowEntries(rows[k]) != [];
        assert k == |rows| - 1;
      }
    }
  }

  /** The table has a key exactly for the proteins with at least one
      entry, and lists each of them once. */
  lemma {:induction false} CollectKeys(rows: seq<Row>)
    ensures WellKept(Collect(rows))
    ensures forall p :: p in Collect(rows).entries <==> HasEntries(rows, p)
    decreases |rows|
  {
    if |rows| > 0 {
      var init, last := rows[..|rows| - 1], rows[|rows| - 1];
      CollectKeys(init);
      HasEntriesSnoc(rows);
      var t := Collect(init);
      if RowEntries(last) != [] && last.proteinId !in t.entries {
        NoDupSnoc(t.order, last.proteinId);
      }
    }
  }

  lemma HasEntriesSnoc(rows: seq<Row>)
    requires |rows| > 0
    ensures var last := rows[|rows| - 1];
      forall p :: HasEntries(rows, p) <==>
        HasEntries(rows[..|rows| - 1], p) || (last.proteinId == p && RowEntries(last) != [])
  {
    var init := rows[..|rows| - 1];
    assert forall k :: 0 <= k < |init| ==> init[k] == rows[k];
  }

  /** The table holds, for every protein, the concatenation of the
      entries of its rows; a protein without a key has none. */
  lemma {:induction false} CollectGroups(rows: seq<Row>)
    ensures forall p :: p in Collect(rows).entries ==> Collect(rows).entries[p] == Group(rows, p)
    ensures forall p :: p !in Collect(rows).entries ==> Group(rows, p) == []
    decreases |rows|
  {
    if |rows| > 0 {
      CollectGroups(rows[..|rows| - 1]);
    }
  }

  lemma NoDupSnoc(s: seq<string>, x: string)
    requires NoDup(s) && x !in s
    ensures NoDup(s + [x])
  {
  }

  /** Proteins are listed in order of their first entry: the list after a
      prefix of the rows is a prefix of the final list, and holds exactly
      the proteins with an entry in that prefix. */
  lemma {:induction false} CollectOrder(rows: seq<Row>, n: nat)
    requires n <= |rows|
    ensures Collect(rows[..n]).order <= Collect(rows).order
    ensures forall p :: p in Collect(rows[..n]).order <==> HasEntries(rows[..n], p)
    decreases |rows| - n
  {
    CollectKeys(rows[..n]);
    if n < |rows| {
      CollectOrder(rows, n + 1);
      assert rows[..n + 1][..n] == rows[..n];
    } else {
      assert rows[..n] == rows;
    }
  }

  // ---------------------------------------------------------------------
  // The choice per protein

  /** Reference: `k` is the head of the stable sort by priority, i.e. the
      first entry of minimal priority. */
  predicate IsChoice(es: seq<Entry>, k: nat)
    requires AllTargets(es)
  {
    && k < |es|
    && (forall j :: 0 <= j < |es| ==> Priority(es[k].1) <= Priority(es[j].1))
    && (forall j :: 0 <= j < k ==> Priority(es[k].1) < Priority(es[j].1))
  }

  /** The position of the chosen entry, by a scan from the back. */
  function BestIndex(es: seq<Entry>): (k: nat)
    requires |es| > 0 && AllTargets(es)
    ensures IsChoice(es, k)
    decreases |es|
  {
    if |es| == 1 then 0
    else
      var k := BestIndex(es[1..]) + 1;
      assert forall j :: 1 <= j < |es| ==> es[j] == es[1..][j - 1];
      if Priority(es[0].1) <= Priority(es[k].1) then 0 else k
  }

  /** There is one choice only. */
  lemma ChoiceUnique(es: seq<Entry>, k: nat, k': nat)
    requires AllTargets(es) && IsChoice(es, k) && IsChoice(es, k')
    ensures k == k'
  {
    ChoiceFirst(es, k, k');
    ChoiceFirst(es, k', k);
  }

  lemma ChoiceFirst(es: seq<Entry>, k: nat, k': nat)
    requires AllTargets(es) && IsChoice(es, k) && IsChoice(es, k')
    ensures k <= k'
  {
    assert Priority(es[k'].1) <= Priority(es[k].1);
  }

  /** An entry of the first priority source, when there is one, is chosen
      over any other. */
  lemma ChoicePrefersFirstSource(es: seq<Entry>, j: nat)
    requires |es| > 0 && AllTargets(es)
    requires j < |es| && es[j].1 == SourcePriority[0]
    ensures es[BestIndex(es)].1 == SourcePriority[0]
  {
  }

  // ---------------------------------------------------------------------
  // The output

  function OutputLine(p: string, e: Entry): string {
    Join([p, e.0, e.1], '\t')
  }

  predicate TableTargets(t: Table) {
    forall p :: p in t.entries ==> AllTargets(t.entries[p])
  }

  /** The output loop: one line per listed protein with at least two
      entries, in list order. */
  function Output(t: Table, order: seq<string>): (r: seq<string>)
    requires TableTargets(t)
    requires forall i :: 0 <= i < |order| ==> order[i] in t.entries
    ensures |r| <= |order|
    decreases |order|
  {
    if |order| == 0 then []
    else
      var p := order[0];
      var es := t.entries[p];
      var rest := Output(t, order[1..]);
      if |es| < 2 then rest else [OutputLine(p, es[BestIndex(es)])] + rest
  }

  /** `filter_protein_aliases` on the lines of the file. */
  function FilterProteinAliases(lines: seq<string>): (r: Result<seq<string>>)
    ensures |lines| == 0 ==> r == Failure(StopIteration)
    ensures r.Failure? ==> r.error in {StopIteration, ValueError}
    ensures r.Success? ==> |r.value| <= |lines| - 1
  {
    var rows :- ParseRows(lines);
    var t := Collect(rows);
    CollectKeys(rows);
    CollectGroups(rows);
    CollectOrderBound(rows);
    Success(Output(t, t.order))
  }

  /** Every listed protein has a row, so there are no more of them than
      rows. */
  lemma CollectOrderBound(rows: seq<Row>)
    ensures |Collect(rows).order| <= |rows|
    decreases |rows|
  {
    if |rows| > 0 {
      CollectOrderBound(rows[..|rows| - 1]);
    }
  }

  /** The lines written are exactly those for the proteins with at least
      two entries, in the order of their first entry, each with the chosen
      entry. */
  lemma {:induction false} OutputSpec(t: Table, order: seq<string>)
    requires TableTargets(t)
    requires forall i :: 0 <= i < |order| ==> order[i] in t.entries
    ensures |Output(t, order)| == CountIf(order, (p: string) => p in t.entries && |t.entries[p]| >= 2)
    ensures forall line :: line in Output(t, order) <==>
      exists i :: 0 <= i < |order| && |t.entries[order[i]]| >= 2 &&
        line == OutputLine(order[i], t.entries[order[i]][BestIndex(t.entries[order[i]])])
    decreases |order|
  {
    if |order| > 0 {
      OutputSpec(t, order[1..]);
      assert forall i :: 1 <= i < |order| ==> order[i] == order[1..][i - 1];
    }
  }

  /** The proteins that print a line: those with at least two entries. */
  function Printed(t: Table): string -> bool {
    (p: string) => p in t.entries && |t.entries[p]| >= 2
  }

  /** `line` is the output line of protein `q`, which has at least two
      entries. */
  predicate IsLineOf(t: Table, q: string, line: string) {
    && q in t.entries && |t.entries[q]| >= 2 && AllTargets(t.entries[q])
    && line == OutputLine(q, Chosen(t.entries[q]))
  }

  /** The lines come in list order: the `i`-th line is that of the `i`-th
      listed protein with at least two entries. */
  lemma {:induction false} OutputInOrder(t: Table, order: seq<string>)
    requires TableTargets(t)
    requires forall i :: 0 <= i < |order| ==> order[i] in t.entries
    ensures var ps := Filter(order, Printed(t));
      && |Output(t, order)| == |ps|
      && forall i :: 0 <= i < |ps| ==> IsLineOf(t, ps[i], Output(t, order)[i])
    decreases |order|
  {
    if |order| > 0 {
      var p, tail := order[0], order[1..];
      assert forall i :: 0 <= i < |tail| ==> tail[i] == order[i + 1];
      OutputInOrder(t, tail);
      var ps', rest := Filter(tail, Printed(t)), Output(t, tail);
      if |t.entries[p]| >= 2 {
        var line := OutputLine(p, Chosen(t.entries[p]));
        assert Filter(order, Printed(t)) == [p] + ps';
        assert Output(t, order) == [line] + rest;
        assert IsLineOf(t, p, line);
        ConsLines(t, ps', rest, p, line);
      } else {
        assert Filter(order, Printed(t)) == ps';
        assert Output(t, order) == rest;
      }
    }
  }

  /** Prepending one protein and its line keeps the pairing. */
  lemma ConsLines(t: Table, ps: seq<string>, out: seq<string>, p: string, line: string)
    requires |out| == |ps| && forall i :: 0 <= i < |ps| ==> IsLineOf(t, ps[i], out[i])
    requires IsLineOf(t, p, line)
    ensures |[line] + out| == |[p] + ps|
    ensures forall i :: 0 <= i < |ps| + 1 ==> IsLineOf(t, ([p] + ps)[i], ([line] + out)[i])
  {
    forall i | 0 <= i < |ps| + 1 ensures IsLineOf(t, ([p] + ps)[i], ([line] + out)[i]) {
      if i > 0 {
        assert ([p] + ps)[i] == ps[i - 1] && ([line] + out)[i] == out[i - 1];
      }
    }
  }

  function Chosen(es: seq<Entry>): Entry
    requires |es| > 0 && AllTargets(es)
  {
    es[BestIndex(es)]
  }

  /** `line` is the output line of some protein with at least two
      entries. */
  ghost predicate IsProteinLine(rows: seq<Row>, line: string) {
    exists p :: |Group(rows, p)| >= 2 && line == OutputLine(p, Chosen(Group(rows, p)))
  }

  /** The output of the whole file: one line for each protein with at
      least two entries, carrying the first of its entries of best
      priority, and nothing else. */
  lemma AliasOutputLines(lines: seq<string>)
    requires ParseRows(lines).Success?
    ensures forall line :: line in FilterProteinAliases(lines).value <==> IsProteinLine(ParseRows(lines).value, line)
  {
    var rows := ParseRows(lines).value;
    FilterIsOutput(lines);
    RowsOutputLines(rows);
  }

  /** The printed lines of the whole file, in order: one for each protein
      with at least two entries, taken in the order of the proteins' first
      entries (`CollectOrder`), each carrying its chosen entry. */
  lemma AliasOutputOrder(lines: seq<string>)
    requires ParseRows(lines).Success?
    ensures var rows := ParseRows(lines).value;
      var t := Collect(rows);
      var ps := Filter(t.order, Printed(t));
      && TableTargets(t)
      && FilterProteinAliases(lines).Success?
      && |FilterProteinAliases(lines).value| == |ps|
      && forall i :: 0 <= i < |ps| ==>
           && IsLineOf(t, ps[i], FilterProteinAliases(lines).value[i])
           && t.entries[ps[i]] == Group(rows, ps[i])
  {
    var rows := ParseRows(lines).value;
    var t := Collect(rows);
    FilterIsOutput(lines);
    CollectGroups(rows);
    assert forall i :: 0 <= i < |t.order| ==> t.order[i] in t.entries;
    OutputInOrder(t, t.order);
  }

  lemma FilterIsOutput(lines: seq<string>)
    requires ParseRows(lines).Success?
    ensures var rows := ParseRows(lines).value;
      TableTargets(Collect(rows)) && WellKept(Collect(rows)) &&
      FilterProteinAliases(lines) == Success(Output(Collect(rows), Collect(rows).order))
  {
    var rows := ParseRows(lines).value;
    CollectKeys(rows);
    CollectGroups(rows);
  }

  lemma RowsOutputLines(rows: seq<Row>)
    requires TableTargets(Collect(rows)) && WellKept(Collect(rows))
    ensures forall line :: line in Output(Collect(rows), Collect(rows).order) <==> IsProteinLine(rows, line)
  {
    forall line ensures line in Output(Collect(rows), Collect(rows).order) <==> IsProteinLine(rows, line) {
      if line in Output(Collect(rows), Collect(rows).order) {
        OutputLineOfProtein(rows, line);
      }
      if IsProteinLine(rows, line) {
        ProteinLineInOutput(rows, line);
      }
    }
  }

  lemma OutputLineOfProtein(rows: seq<Row>, line: string)
    requires TableTargets(Collect(rows)) && WellKept(Collect(rows))
    requires line in Output(Collect(rows), Collect(rows).order)
    ensures IsProteinLine(rows, line)
  {
    var t := Collect(rows);
    CollectGroups(rows);
    OutputSpec(t, t.order);
    var i :| 0 <= i < |t.order| && |t.entries[t.order[i]]| >= 2 &&
      line == OutputLine(t.order[i], t.entries[t.order[i]][BestIndex(t.entries[t.order[i]])]);
    var p := t.order[i];
    assert t.entries[p] == Group(rows, p);
  }

  lemma ProteinLineInOutput(rows: seq<Row>, line: string)
    requires TableTargets(Collect(rows)) && WellKept(Collect(rows))
    requires IsProteinLine(rows, line)
    ensures line in Output(Collect(rows), Collect(rows).order)
  {
    var t := Collect(rows);
    CollectGroups(rows);
    var p :| |Group(rows, p)| >= 2 && line == OutputLine(p, Chosen(Group(rows, p)));
    assert p in t.entries;
    var i :| 0 <= i < |t.order| && t.order[i] == p;
    OutputSpec(t, t.order);
  }
}
