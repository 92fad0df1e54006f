/** Retyping textbounds by their text (`retype_standoff.py`).

    A type map, read from a two-column TSV file, sends a text to a type.
    Every `.ann` line is printed again: a line that is not a textbound is
    echoed, and a textbound whose text the map knows under a different
    type is written with the mapped type in place of its own; id, offsets
    and text stay as they were.
 */
module Retype {
  import opened Wrappers
  import opened PyStrings
  import opened Seqs

  type TypeMap = map<string, string>

  /** A textbound line, once its newline is dropped: three TAB-separated
      fields and a space in the middle one. */
  predicate WellFormed(l: string) {
    |Split(l, '\t')| == 3 && ' ' in Split(l, '\t')[1]
  }

  /** The parts `id_, type_, span, text` of a well-formed line. */
  datatype Parts = Parts(id: string, typ: string, span: string, text: string)

  function PartsOf(l: string): Parts
    requires WellFormed(l)
  {
    var f := Split(l, '\t');
    var ts := SplitOnce(f[1], ' ');
    Parts(f[0], ts[0], ts[1], f[2])
  }

  /** The line written for given parts. */
  function LineOf(p: Parts): string {
    Join([p.id, p.typ + [' '] + p.span, p.text], '\t')
  }

  /** The condition under which a line is rewritten. */
  predicate Retypes(l: string, m: TypeMap) {
    StartsWith(l, 'T') && WellFormed(l) && PartsOf(l).text in m && m[PartsOf(l).text] != PartsOf(l).typ
  }

  /** One line of `retype_standoff`, without the newline `print` adds.
      Either unpacking of a textbound line raises `ValueError`. The line
      comes out changed exactly when it is retyped. */
  function RetypeLine(raw: string, m: TypeMap): (r: Result<string>)
    ensures r.Failure? <==> StartsWith(RStrip(raw, '\n'), 'T') && !WellFormed(RStrip(raw, '\n'))
    ensures r.Failure? ==> r.error == ValueError
    ensures r.Success? ==> (r.value != RStrip(raw, '\n') <==> Retypes(RStrip(raw, '\n'), m))
  {
    var l := RStrip(raw, '\n');
    if !StartsWith(l, 'T') then Success(l)
    else
      var f := Split(l, '\t');
      if |f| != 3 then Failure(ValueError)
      else
        var ts := SplitOnce(f[1], ' ');
        if |ts| != 2 then Failure(ValueError)
        else if f[2] in m && m[f[2]] != ts[0] then
          var p := Parts(f[0], m[f[2]], ts[1], f[2]);
          RewriteChanges(l, p.typ);
          Success(LineOf(p))
        else Success(l)
  }

  lemma JoinThree(a: string, b: string, c: string, sep: char)
    ensures Join([a, b, c], sep) == a + [sep] + b + [sep] + c
  {
    assert [a, b, c][1..] == [b, c];
    assert [b, c][1..] == [c];
    assert Join([b, c], sep) == b + [sep] + c;
  }

  /** A well-formed line is the line of its parts. */
  lemma LineOfParts(l: string)
    requires WellFormed(l)
    ensures LineOf(PartsOf(l)) == l
  {
    var f := Split(l, '\t');
    JoinThree(f[0], f[1], f[2], '\t');
    JoinThree(f[0], PartsOf(l).typ + [' '] + PartsOf(l).span, f[2], '\t');
    assert [f[0], f[1], f[2]] == f;
  }

  /** Writing a different type gives a different line. */
  lemma RewriteChanges(l: string, t: string)
    requires WellFormed(l) && t != PartsOf(l).typ
    ensures LineOf(PartsOf(l).(typ := t)) != l
  {
    var p := PartsOf(l);
    LineOfParts(l);
    var a := p.id + ['\t'];
    var z := ['\t'] + p.text;
    JoinThree(p.id, p.typ + [' '] + p.span, p.text, '\t');
    JoinThree(p.id, t + [' '] + p.span, p.text, '\t');
    var old_ := a + (p.typ + [' '] + p.span) + z;
    var new_ := a + (t + [' '] + p.span) + z;
    assert l == old_ && LineOf(p.(typ := t)) == new_;
    if |t| == |p.typ| {
      var k :| 0 <= k < |t| && t[k] != p.typ[k];
      assert new_[|a| + k] == t[k];
      assert old_[|a| + k] == p.typ[k];
    } else {
      assert |new_| != |old_|;
    }
  }

  /** A rewritten line reads back with the mapped type and with the id,
      span and text of the original: only the type changes. */
  lemma RewriteKeepsParts(raw: string, m: TypeMap)
    requires Retypes(RStrip(raw, '\n'), m)
    requires var l := RStrip(raw, '\n'); ' ' !in m[PartsOf(l).text] && '\t' !in m[PartsOf(l).text]
    ensures RetypeLine(raw, m).Success?
    ensures var l := RStrip(raw, '\n'); var r := RetypeLine(raw, m).value;
      WellFormed(r) && PartsOf(r) == PartsOf(l).(typ := m[PartsOf(l).text])
  {
    var l := RStrip(raw, '\n');
    var p := PartsOf(l);
    var q := p.(typ := m[p.text]);
    ReadParts(q);
  }

  /** Parts free of the separators read back from their line. */
  lemma ReadParts(q: Parts)
    requires '\t' !in q.id && '\t' !in q.typ && ' ' !in q.typ && '\t' !in q.span && '\t' !in q.text
    ensures WellFormed(LineOf(q)) && PartsOf(LineOf(q)) == q
  {
    var mid := q.typ + [' '] + q.span;
    assert '\t' !in mid;
    SplitJoin([q.id, mid, q.text], '\t');
    SplitOnceAt(q.typ, q.span, ' ');
    assert mid[|q.typ|] == ' ';
  }

  /** The separators a well-formed line's parts cannot hold. */
  lemma PartsPlain(l: string)
    requires WellFormed(l)
    ensures '\t' !in PartsOf(l).id && '\t' !in PartsOf(l).typ && ' ' !in PartsOf(l).typ
    ensures '\t' !in PartsOf(l).span && '\t' !in PartsOf(l).text
  {
    var f := Split(l, '\t');
    assert '\t' !in f[1];
    var ts := SplitOnce(f[1], ' ');
    assert f[1] == ts[0] + [' '] + ts[1];
    assert forall c :: c in ts[1] ==> c in f[1];
    assert forall c :: c in ts[0] ==> c in f[1];
  }

  /** Types fit for the format: no space and no TAB. */
  predicate PlainTypes(m: TypeMap) {
    forall t :: t in m ==> ' ' !in m[t] && '\t' !in m[t]
  }

  /** Retyping is idempotent: a printed line, read back, is printed the
      same way again. */
  lemma RetypeLineIdempotent(raw: string, m: TypeMap)
    requires PlainTypes(m)
    requires RetypeLine(raw, m).Success?
    ensures RetypeLine(RetypeLine(raw, m).value + "\n", m) == RetypeLine(raw, m)
  {
    var l := RStrip(raw, '\n');
    var r := RetypeLine(raw, m).value;
    if Retypes(l, m) {
      var p := PartsOf(l);
      PartsPlain(l);
      RewriteKeepsParts(raw, m);
      assert r == LineOf(p.(typ := m[p.text]));
      EndsLikeLine(l, p.(typ := m[p.text]));
      RStripNewline(r);
      assert r[0] == 'T' by {
        JoinThree(p.id, m[p.text] + [' '] + p.span, p.text, '\t');
        LineOfParts(l);
        JoinThree(p.id, p.typ + [' '] + p.span, p.text, '\t');
        assert l[0] == 'T';
        assert l[0] == if |p.id| == 0 then '\t' else p.id[0];
      }
      assert !Retypes(r, m);
    } else {
      assert r == l;
      RStripNewline(l);
    }
  }

  /** A line that does not end in a newline comes back from `rstrip`
      after one is appended. */
  lemma RStripNewline(l: string)
    requires |l| == 0 || l[|l| - 1] != '\n'
    ensures RStrip(l + "\n", '\n') == l
  {
    assert (l + "\n")[..|l|] == l;
    RStripNoop(l, '\n');
  }

  /** A rewritten line ends in the same character as the original, or in
      a TAB when the text is empty; either way not in a newline. */
  lemma EndsLikeLine(l: string, q: Parts)
    requires WellFormed(l) && q.text == PartsOf(l).text && q.id == PartsOf(l).id
    requires |l| == 0 || l[|l| - 1] != '\n'
    ensures var r := LineOf(q); |r| == 0 || r[|r| - 1] != '\n'
  {
    var p := PartsOf(l);
    LineOfParts(l);
    JoinThree(p.id, p.typ + [' '] + p.span, p.text, '\t');
    JoinThree(q.id, q.typ + [' '] + q.span, q.text, '\t');
  }

  /** How a line written from plain parts is retyped: rewritten with the
      mapped type exactly when the map knows its text under another type. */
  lemma RetypeLineOf(q: Parts, m: TypeMap)
    requires '\t' !in q.id && '\t' !in q.typ && ' ' !in q.typ && '\t' !in q.span && '\t' !in q.text
    requires |q.id| > 0 && q.id[0] == 'T'
    requires |q.text| > 0 && q.text[|q.text| - 1] != '\n'
    ensures RetypeLine(LineOf(q) + "\n", m) ==
      if q.text in m && m[q.text] != q.typ then Success(LineOf(q.(typ := m[q.text])))
      else Success(LineOf(q))
  {
    var l := LineOf(q);
    JoinThree(q.id, q.typ + [' '] + q.span, q.text, '\t');
    assert l[0] == 'T' && l[|l| - 1] == q.text[|q.text| - 1];
    RStripNewline(l);
    ReadParts(q);
  }

  /** A type holding a space breaks idempotence: its second word is read
      back as part of the span, and the line is rewritten once more. */
  lemma RetypeSpacedTypeNotIdempotent()
    ensures var m := map["x" := "A B"];
      RetypeLine(LineOf(Parts("T1", "C", "0 1", "x")) + "\n", m)
        == Success(LineOf(Parts("T1", "A B", "0 1", "x"))) &&
      RetypeLine(LineOf(Parts("T1", "A B", "0 1", "x")) + "\n", m)
        == Success(LineOf(Parts("T1", "A B", "B 0 1", "x")))
  {
    var m := map["x" := "A B"];
    RetypeLineOf(Parts("T1", "C", "0 1", "x"), m);
    assert LineOf(Parts("T1", "A B", "0 1", "x")) == LineOf(Parts("T1", "A", "B 0 1", "x")) by {
      assert "A B" + [' '] + "0 1" == "A" + [' '] + "B 0 1";
    }
    RetypeLineOf(Parts("T1", "A", "B 0 1", "x"), m);
  }

  /** `retype_standoff` over a whole file: one printed line per input
      line, or the error of the first malformed textbound. */
  function RetypeStandoff(lines: seq<string>, m: TypeMap): (r: Result<seq<string>>)
    ensures r.Failure? <==> exists i :: 0 <= i < |lines| && RetypeLine(lines[i], m).Failure?
    ensures r.Success? ==> |r.value| == |lines|
    ensures r.Success? ==> forall i :: 0 <= i < |lines| ==> RetypeLine(lines[i], m) == Success(r.value[i])
  {
    MapResult(lines, (l: string) => RetypeLine(l, m))
  }

  /** Retyping a retyped file changes nothing. */
  lemma RetypeStandoffIdempotent(lines: seq<string>, m: TypeMap)
    requires PlainTypes(m)
    requires RetypeStandoff(lines, m).Success?
    ensures var out := RetypeStandoff(lines, m).value;
      RetypeStandoff(seq(|out|, i requires 0 <= i < |out| => out[i] + "\n"), m) == Success(out)
  {
    var out := RetypeStandoff(lines, m).value;
    var again := seq(|out|, i requires 0 <= i < |out| => out[i] + "\n");
    forall i | 0 <= i < |out| ensures RetypeLine(again[i], m) == Success(out[i]) {
      RetypeLineIdempotent(lines[i], m);
    }
    var r := RetypeStandoff(again, m);
    assert r.Success?;
    assert r.value == out;
  }

  // ---------------------------------------------------------------------
  // `load_type_map`

  /** The TAB-separated fields of a type map row. */
  function Row(raw: string): seq<string> {
    Split(RStrip(raw, '\n'), '\t')
  }

  function Rows(lines: seq<string>): (rows: seq<seq<string>>)
    ensures |rows| == |lines|
  {
    seq(|lines|, i requires 0 <= i < |lines| => Row(lines[i]))
  }

  predicate AllPairs(rows: seq<seq<string>>) {
    forall i :: 0 <= i < |rows| ==> |rows[i]| == 2
  }

  predicate DistinctTexts(rows: seq<seq<string>>) {
    forall i, j :: 0 <= i < j < |rows| && |rows[i]| == 2 && |rows[j]| == 2 ==> rows[i][0] != rows[j][0]
  }

  /** The loop of `load_type_map` over the split rows, in file order. */
  function LoadRows(rows: seq<seq<string>>): (r: Result<TypeMap>)
    ensures r.Failure? ==> r.error == ValueError || r.error == AssertionError
    ensures r.Failure? && AllPairs(rows) ==> r.error == AssertionError
    decreases |rows|
  {
    if |rows| == 0 then Success(map[])
    else
      var init := rows[..|rows| - 1];
      assert forall i :: 0 <= i < |init| ==> init[i] == rows[i];
      var m :- LoadRows(init);
      var f := rows[|rows| - 1];
      if |f| != 2 then Failure(ValueError)
      else if f[0] in m then Failure(AssertionError)
      else Success(m[f[0] := f[1]])
  }

  /** `load_type_map`: every row is `text TAB type`, and no text may come
      twice. A wrong field count raises `ValueError`, a repeated text
      fails the `assert`. */
  function LoadTypeMap(lines: seq<string>): (r: Result<TypeMap>)
    ensures r.Failure? ==> r.error == ValueError || r.error == AssertionError
    ensures r.Failure? && AllPairs(Rows(lines)) ==> r.error == AssertionError
  {
    LoadRows(Rows(lines))
  }

  /** A loaded map holds every row's text with that row's type, and
      nothing else. */
  lemma {:induction false} LoadRowsContents(rows: seq<seq<string>>)
    requires LoadRows(rows).Success?
    ensures AllPairs(rows)
    ensures forall i :: 0 <= i < |rows| ==>
      rows[i][0] in LoadRows(rows).value && LoadRows(rows).value[rows[i][0]] == rows[i][1]
    ensures forall t :: t in LoadRows(rows).value ==> exists i :: 0 <= i < |rows| && rows[i][0] == t
    decreases |rows|
  {
    if |rows| > 0 {
      var init := rows[..|rows| - 1];
      assert forall i :: 0 <= i < |init| ==> init[i] == rows[i];
      LoadRowsContents(init);
      var m := LoadRows(init).value;
      var f := rows[|rows| - 1];
      assert LoadRows(rows).value == m[f[0] := f[1]];
      forall t | t in LoadRows(rows).value
        ensures exists i :: 0 <= i < |rows| && rows[i][0] == t
      {
        if t != f[0] {
          var i :| 0 <= i < |init| && init[i][0] == t;
          assert rows[i][0] == t;
        }
      }
    }
  }

  /** The map loads exactly when every row has two fields and no text
      repeats. */
  lemma {:induction false} LoadRowsSucceeds(rows: seq<seq<string>>)
    ensures LoadRows(rows).Success? <==> AllPairs(rows) && DistinctTexts(rows)
    decreases |rows|
  {
    if |rows| > 0 {
      var init := rows[..|rows| - 1];
      var last := rows[|rows| - 1];
      assert forall i :: 0 <= i < |init| ==> init[i] == rows[i];
      LoadRowsSucceeds(init);
      if LoadRows(init).Success? {
        LoadRowsContents(init);
        var m := LoadRows(init).value;
        if AllPairs(rows) && DistinctTexts(rows) {
          assert last[0] !in m by {
            forall i | 0 <= i < |init| ensures init[i][0] != last[0] {
              assert rows[i][0] != rows[|rows| - 1][0];
            }
          }
        }
        if LoadRows(rows).Success? {
          assert forall i :: 0 <= i < |init| ==> init[i][0] in m;
        }
      }
    }
  }

  /** The first offending row decides: once a prefix fails, the whole
      file fails the same way. */
  lemma {:induction false} LoadRowsFirstError(rows: seq<seq<string>>, k: nat)
    requires k <= |rows| && LoadRows(rows[..k]).Failure?
    ensures LoadRows(rows) == LoadRows(rows[..k])
    decreases |rows| - k
  {
    if k < |rows| {
      var init := rows[..|rows| - 1];
      assert init[..k] == rows[..k];
      LoadRowsFirstError(init, k);
    } else {
      assert rows[..k] == rows;
    }
  }

  /** For the file: the map loads exactly when every row has two fields
      and no text repeats, and then maps each row's text to its type. */
  lemma LoadTypeMapSpec(lines: seq<string>)
    ensures LoadTypeMap(lines).Success? <==> AllPairs(Rows(lines)) && DistinctTexts(Rows(lines))
    ensures LoadTypeMap(lines).Success? ==> forall i :: 0 <= i < |lines| ==>
      |Row(lines[i])| == 2 && Row(lines[i])[0] in LoadTypeMap(lines).value &&
      LoadTypeMap(lines).value[Row(lines[i])[0]] == Row(lines[i])[1]
    ensures LoadTypeMap(lines).Success? ==> forall t :: t in LoadTypeMap(lines).value ==>
      exists i :: 0 <= i < |lines| && Row(lines[i])[0] == t
  {
    LoadRowsSucceeds(Rows(lines));
    if LoadTypeMap(lines).Success? {
      LoadRowsContents(Rows(lines));
      assert forall i :: 0 <= i < |lines| ==> Rows(lines)[i] == Row(lines[i]);
    }
  }
}
