/** The Python `str` operations the modelled scripts rely on, written out
    with Python's exact semantics where they matter for the model:
    `split(sep)`, `split()` (whitespace), `split(sep, 1)`, `join`,
    `rstrip('\n')`, `startswith`, string ordering, decimal rendering of
    integers and `int()` parsing. Case mapping is ASCII only.
 */
module PyStrings {
  import opened Wrappers

  /** `sep.join(fields)` for a one-character separator. */
  function Join(fields: seq<string>, sep: char): string
    decreases |fields|
  {
    if |fields| == 0 then ""
    else if |fields| == 1 then fields[0]
    else fields[0] + [sep] + Join(fields[1..], sep)
  }

  /** `s.split(sep)` for a one-character separator: never empty, empty
      fields are kept, and joining the fields back gives `s`. */
  function Split(s: string, sep: char): (r: seq<string>)
    ensures |r| >= 1
    ensures forall i :: 0 <= i < |r| ==> sep !in r[i]
    ensures Join(r, sep) == s
    decreases |s|
  {
    if |s| == 0 then [""]
    else
      var rest := Split(s[1..], sep);
      if s[0] == sep then
        assert s == [sep] + s[1..];
        [""] + rest
      else
        assert s == [s[0]] + s[1..];
        [[s[0]] + rest[0]] + rest[1..]
  }

  lemma {:induction false} SplitWithoutSep(s: string, sep: char)
    requires sep !in s
    ensures Split(s, sep) == [s]
    decreases |s|
  {
    if |s| > 0 {
      SplitWithoutSep(s[1..], sep);
      assert [s[0]] + s[1..] == s;
    }
  }

  lemma {:induction false} SplitAfterField(a: string, b: string, sep: char)
    requires sep !in a
    ensures Split(a + [sep] + b, sep) == [a] + Split(b, sep)
    decreases |a|
  {
    if |a| == 0 {
      assert a + [sep] + b == [sep] + b;
      assert (a + [sep] + b)[1..] == b;
    } else {
      var s := a + [sep] + b;
      assert s[1..] == a[1..] + [sep] + b;
      SplitAfterField(a[1..], b, sep);
      var rest := Split(s[1..], sep);
      assert rest[0] == a[1..] && rest[1..] == Split(b, sep);
      assert s[0] == a[0] && s[0] != sep;
      assert Split(s, sep) == [[a[0]] + rest[0]] + rest[1..];
      assert [a[0]] + a[1..] == a;
    }
  }

  /** Splitting a join gives the fields back when no field holds the
      separator: the two are inverse on separator-free fields. */
  lemma {:induction false} SplitJoin(fields: seq<string>, sep: char)
    requires |fields| >= 1
    requires forall i :: 0 <= i < |fields| ==> sep !in fields[i]
    ensures Split(Join(fields, sep), sep) == fields
    decreases |fields|
  {
    if |fields| == 1 {
      SplitWithoutSep(fields[0], sep);
    } else {
      SplitJoin(fields[1..], sep);
      SplitAfterField(fields[0], Join(fields[1..], sep), sep);
      assert [fields[0]] + fields[1..] == fields;
    }
  }

  /** `Join(fields[..2])` is a prefix of `Join(fields)`: the first two
      fields and the separator between them come first. */
  lemma JoinFirstTwoIsPrefix(fields: seq<string>, sep: char)
    requires |fields| > 2
    ensures Join(fields, sep) == Join(fields[..2], sep) + [sep] + Join(fields[2..], sep)
  {
    assert fields[..2][1..] == [fields[1]];
    assert fields[1..][1..] == fields[2..];
  }

  /** A character absent from every field and different from the
      separator is absent from their join. */
  lemma {:induction false} JoinWithout(fields: seq<string>, sep: char, c: char)
    requires sep != c
    requires forall i :: 0 <= i < |fields| ==> c !in fields[i]
    ensures c !in Join(fields, sep)
    decreases |fields|
  {
    if |fields| > 1 {
      JoinWithout(fields[1..], sep, c);
    }
  }

  // ---------------------------------------------------------------------
  // Whitespace splitting: `s.split()` with no argument.

  /** The characters for which Python's `str.isspace()` holds, i.e. the
      separators of `str.split()` without an argument. */
  predicate IsSpace(c: char) {
    || c == ' ' || c == '\t' || c == '\n' || c == '\r'
    || c == '\U{0B}' || c == '\U{0C}'
    || ('\U{1C}' <= c <= '\U{1F}')
    || c == '\U{85}' || c == '\U{A0}' || c == '\U{1680}'
    || ('\U{2000}' <= c <= '\U{200A}')
    || c == '\U{2028}' || c == '\U{2029}' || c == '\U{202F}'
    || c == '\U{205F}' || c == '\U{3000}'
  }

  predicate NoSpace(s: string) {
    forall i :: 0 <= i < |s| ==> !IsSpace(s[i])
  }

  /** The longest prefix of `s` holding no whitespace. */
  function TakeToken(s: string): (r: string)
    ensures |r| <= |s| && r == s[..|r|]
    ensures NoSpace(r)
    ensures |r| < |s| ==> IsSpace(s[|r|])
    decreases |s|
  {
    if |s| == 0 || IsSpace(s[0]) then ""
    else [s[0]] + TakeToken(s[1..])
  }

  /** `s.split()`: runs of whitespace separate tokens, leading and trailing
      whitespace is dropped, and no token is empty. */
  function SplitWs(s: string): (r: seq<string>)
    ensures forall i :: 0 <= i < |r| ==> |r[i]| > 0 && NoSpace(r[i])
    decreases |s|
  {
    if |s| == 0 then []
    else if IsSpace(s[0]) then SplitWs(s[1..])
    else
      var tok := TakeToken(s);
      [tok] + SplitWs(s[|tok|..])
  }

  lemma {:induction false} TakeTokenOf(tok: string, rest: string)
    requires NoSpace(tok)
    requires |rest| == 0 || IsSpace(rest[0])
    ensures TakeToken(tok + rest) == tok
    decreases |tok|
  {
    if |tok| == 0 {
      assert tok + rest == rest;
    } else {
      assert (tok + rest)[1..] == tok[1..] + rest;
      TakeTokenOf(tok[1..], rest);
      assert [tok[0]] + tok[1..] == tok;
    }
  }

  /** `split()` undoes a space-join of non-empty whitespace-free tokens. */
  lemma {:induction false} SplitWsJoin(tokens: seq<string>)
    requires forall i :: 0 <= i < |tokens| ==> |tokens[i]| > 0 && NoSpace(tokens[i])
    ensures SplitWs(Join(tokens, ' ')) == tokens
    decreases |tokens|
  {
    if |tokens| == 1 {
      TakeTokenOf(tokens[0], "");
      assert tokens[0] + "" == tokens[0];
      assert tokens[0][|tokens[0]|..] == "";
    } else if |tokens| > 1 {
      var s := Join(tokens, ' ');
      var rest := Join(tokens[1..], ' ');
      assert s == tokens[0] + ([' '] + rest);
      TakeTokenOf(tokens[0], [' '] + rest);
      assert s[|tokens[0]|..] == [' '] + rest;
      assert ([' '] + rest)[1..] == rest;
      SplitWsJoin(tokens[1..]);
      assert [tokens[0]] + tokens[1..] == tokens;
    }
  }

  // ---------------------------------------------------------------------
  // `s.split(sep, 1)`, `rstrip`, `startswith`

  /** Index of the first occurrence of `c` in `s`. */
  function IndexOf(s: string, c: char): (i: nat)
    requires c in s
    ensures i < |s| && s[i] == c && c !in s[..i]
  {
    if s[0] == c then 0 else
      var j := IndexOf(s[1..], c);
      assert s[1..][..j] == s[1..j + 1];
      j + 1
  }

  /** `s.split(sep, 1)`: at most one split, at the first separator. */
  function SplitOnce(s: string, sep: char): (r: seq<string>)
    ensures |r| == 1 || |r| == 2
    ensures |r| == 1 <==> sep !in s
    ensures |r| == 1 ==> r[0] == s
    ensures |r| == 2 ==> s == r[0] + [sep] + r[1] && sep !in r[0]
  {
    if sep in s then
      var i := IndexOf(s, sep);
      assert s == s[..i] + [sep] + s[i + 1..];
      [s[..i], s[i + 1..]]
    else [s]
  }

  /** The first occurrence is the one with no earlier occurrence. */
  lemma {:induction false} IndexOfAt(s: string, c: char, k: nat)
    requires k < |s| && s[k] == c && c !in s[..k]
    ensures IndexOf(s, c) == k
    decreases k
  {
    if k > 0 {
      assert s[0] in s[..k];
      assert s[1..][..k - 1] == s[..k][1..];
      assert forall x :: x in s[..k][1..] ==> x in s[..k];
      IndexOfAt(s[1..], c, k - 1);
    }
  }

  /** `split(sep, 1)` undoes joining a separator-free head to any tail. */
  lemma SplitOnceAt(a: string, b: string, sep: char)
    requires sep !in a
    ensures SplitOnce(a + [sep] + b, sep) == [a, b]
  {
    var s := a + [sep] + b;
    assert s[..|a|] == a;
    IndexOfAt(s, sep, |a|);
    assert s[|a| + 1..] == b;
  }

  /** `s.rstrip(c)`: drops every trailing `c`. */
  function RStrip(s: string, c: char): (r: string)
    ensures |r| <= |s| && r == s[..|r|]
    ensures |r| == 0 || r[|r| - 1] != c
    ensures forall i :: |r| <= i < |s| ==> s[i] == c
    decreases |s|
  {
    if |s| > 0 && s[|s| - 1] == c then RStrip(s[..|s| - 1], c) else s
  }

  lemma RStripNoop(s: string, c: char)
    requires |s| == 0 || s[|s| - 1] != c
    ensures RStrip(s, c) == s
  {
  }

  /** `s.startswith(c)` for a one-character prefix. */
  predicate StartsWith(s: string, c: char) {
    |s| > 0 && s[0] == c
  }

  // ---------------------------------------------------------------------
  // ASCII case mapping (the model's stand-in for `str.lower`/`str.upper`)

  function LowerChar(c: char): char {
    if 'A' <= c <= 'Z' then (c as int + 32) as char else c
  }

  function UpperChar(c: char): char {
    if 'a' <= c <= 'z' then (c as int - 32) as char else c
  }

  function Lower(s: string): (r: string)
    ensures |r| == |s|
    ensures forall i :: 0 <= i < |s| ==> r[i] == LowerChar(s[i])
  {
    seq(|s|, i requires 0 <= i < |s| => LowerChar(s[i]))
  }

  // ---------------------------------------------------------------------
  // Python's ordering of `str` values: code point by code point, a proper
  // prefix first.

  predicate Less(a: string, b: string)
    decreases |a|
  {
    if |a| == 0 then |b| > 0
    else if |b| == 0 then false
    else if a[0] != b[0] then a[0] < b[0]
    else Less(a[1..], b[1..])
  }

  predicate LessEq(a: string, b: string) {
    a == b || Less(a, b)
  }

  lemma {:induction false} LessIrreflexive(a: string)
    ensures !Less(a, a)
    decreases |a|
  {
    if |a| > 0 {
      LessIrreflexive(a[1..]);
    }
  }

  lemma {:induction false} LessTransitive(a: string, b: string, c: string)
    requires Less(a, b) && Less(b, c)
    ensures Less(a, c)
    decreases |a|
  {
    if |a| > 0 && a[0] == b[0] && b[0] == c[0] {
      LessTransitive(a[1..], b[1..], c[1..]);
    }
  }

  lemma {:induction false} LessTotal(a: string, b: string)
    ensures a == b || Less(a, b) || Less(b, a)
    decreases |a|
  {
    if |a| > 0 && |b| > 0 && a[0] == b[0] {
      LessTotal(a[1..], b[1..]);
      if a[1..] == b[1..] {
        assert a == [a[0]] + a[1..] && b == [b[0]] + b[1..];
      }
    }
  }

  lemma LessAsymmetric(a: string, b: string)
    ensures !(Less(a, b) && Less(b, a))
  {
    if Less(a, b) && Less(b, a) {
      LessTransitive(a, b, a);
      LessIrreflexive(a);
    }
  }

  // ---------------------------------------------------------------------
  // Decimal rendering (`f'{n}'`) and parsing (`int(s)`) of integers

  predicate IsDigit(c: char) {
    '0' <= c <= '9'
  }

  function DigitChar(d: nat): (c: char)
    requires d < 10
    ensures IsDigit(c)
  {
    (48 + d) as char
  }

  /** The decimal digits of `n`, most significant first, no leading zero. */
  function NatToString(n: nat): (r: string)
    ensures |r| > 0
    ensures forall i :: 0 <= i < |r| ==> IsDigit(r[i])
  {
    if n < 10 then [DigitChar(n)] else NatToString(n / 10) + [DigitChar(n % 10)]
  }

  /** `str(i)` / `f'{i}'` for an integer. */
  function IntToString(i: int): (r: string)
    ensures |r| > 0
  {
    if i < 0 then "-" + NatToString(-i) else NatToString(i)
  }

  function DigitValue(c: char): (d: nat)
    requires IsDigit(c)
    ensures d < 10
  {
    c as int - '0' as int
  }

  /** The value of a string of decimal digits. */
  function DigitsValue(s: string): nat
    requires forall i :: 0 <= i < |s| ==> IsDigit(s[i])
    decreases |s|
  {
    if |s| == 0 then 0
    else DigitsValue(s[..|s| - 1]) * 10 + DigitValue(s[|s| - 1])
  }

  function StripSpaces(s: string): (r: string)
    decreases |s|
  {
    if |s| > 0 && IsSpace(s[0]) then StripSpaces(s[1..])
    else if |s| > 0 && IsSpace(s[|s| - 1]) then StripSpaces(s[..|s| - 1])
    else s
  }

  /** `int(s)`: surrounding whitespace, an optional sign and at least one
      ASCII digit; anything else raises `ValueError`. */
  function ParseInt(s: string): (r: Result<int>)
    ensures r.Failure? ==> r.error == ValueError
  {
    var t := StripSpaces(s);
    var neg := |t| > 0 && t[0] == '-';
    var body := if |t| > 0 && (t[0] == '-' || t[0] == '+') then t[1..] else t;
    if |body| == 0 || exists i :: 0 <= i < |body| && !IsDigit(body[i]) then Failure(ValueError)
    else if neg then Success(0 - DigitsValue(body) as int)
    else Success(DigitsValue(body))
  }

  lemma {:induction false} DigitsOfNat(n: nat)
    ensures DigitsValue(NatToString(n)) == n
  {
    if n >= 10 {
      var s := NatToString(n);
      DigitsOfNat(n / 10);
      assert s[..|s| - 1] == NatToString(n / 10);
    }
  }

  /** `int(str(i)) == i`: rendering and parsing an integer are inverse. */
  lemma ParseIntOfIntToString(i: int)
    ensures ParseInt(IntToString(i)) == Success(i)
  {
    var s := IntToString(i);
    assert !IsSpace(s[0]) && !IsSpace(s[|s| - 1]);
    assert StripSpaces(s) == s;
    if i < 0 {
      DigitsOfNat(-i);
      assert s[1..] == NatToString(-i);
    } else {
      DigitsOfNat(i);
    }
  }

  /** A rendered integer is a single whitespace-free token. */
  lemma IntToStringToken(i: int)
    ensures |IntToString(i)| > 0 && NoSpace(IntToString(i))
    ensures '\t' !in IntToString(i) && '\n' !in IntToString(i)
  {
    var s := IntToString(i);
    var digits := if i < 0 then NatToString(-i) else NatToString(i);
    assert forall j :: 0 <= j < |digits| ==> IsDigit(digits[j]);
    assert i < 0 ==> s == "-" + digits;
    assert forall j :: 0 <= j < |s| ==> s[j] == '-' || IsDigit(s[j]);
  }
}
