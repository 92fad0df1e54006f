/** Character to byte offsets (`char_to_byte_offsets.py`).

    The offset table of a document maps every character index `i`, from 0
    up to and including the length of the text, to the number of bytes the
    UTF-8 encoding of the first `i` characters takes. The byte widths and
    the byte layout follow section 3 of RFC 3629. Both offsets of a span
    are looked up in the same table, so the byte `end` of a span is the
    first byte of its last character.
 */
module ByteOffsets {
  import opened Wrappers
  import opened StringDb

  /** A byte value. */
  type Byte = b: int | 0 <= b < 256

  /** `len(char.encode('utf-8'))`: the table in section 3 of RFC 3629. */
  function Utf8Width(c: char): (r: nat)
    ensures 1 <= r <= 4
    ensures r == 1 <==> c as int < 0x80
  {
    var v := c as int;
    if v < 0x80 then 1 else if v < 0x800 then 2 else if v < 0x10000 then 3 else 4
  }

  predicate Continuation(b: Byte) {
    0x80 <= b < 0xC0
  }

  /** The number of bytes a sequence starting with lead byte `b` has, by
      its high-order bits; 0 for a byte that cannot start one. */
  function LeadWidth(b: Byte): nat {
    if b < 0x80 then 1
    else if b < 0xC0 then 0
    else if b < 0xE0 then 2
    else if b < 0xF0 then 3
    else if b < 0xF8 then 4
    else 0
  }

  /** The UTF-8 encoding of one character: a lead byte carrying the high
      bits of the code point, then six bits per continuation byte. */
  function Encode(c: char): (r: seq<Byte>)
    ensures |r| == Utf8Width(c)
    ensures LeadWidth(r[0]) == |r|
    ensures forall k :: 1 <= k < |r| ==> Continuation(r[k])
  {
    var v := c as int;
    if v < 0x80 then [v]
    else if v < 0x800 then
      assert v / 0x40 < 0x20;
      [0xC0 + v / 0x40, 0x80 + v % 0x40]
    else if v < 0x10000 then
      assert v / 0x1000 < 0x10;
      [0xE0 + v / 0x1000, 0x80 + v / 0x40 % 0x40, 0x80 + v % 0x40]
    else
      assert v < 0x110000 && v / 0x40000 < 0x8;
      [0xF0 + v / 0x40000, 0x80 + v / 0x1000 % 0x40, 0x80 + v / 0x40 % 0x40, 0x80 + v % 0x40]
  }

  /** The code point a well-formed one-character sequence carries: the
      payload bits of the lead byte followed by six bits per continuation
      byte. */
  function DecodeValue(bs: seq<Byte>): int
    requires 1 <= |bs| <= 4
  {
    match |bs|
    case 1 => bs[0] as int
    case 2 => (bs[0] as int - 0xC0) * 0x40 + (bs[1] as int - 0x80)
    case 3 => ((bs[0] as int - 0xE0) * 0x40 + (bs[1] as int - 0x80)) * 0x40 + (bs[2] as int - 0x80)
    case 4 => (((bs[0] as int - 0xF0) * 0x40 + (bs[1] as int - 0x80)) * 0x40 + (bs[2] as int - 0x80)) * 0x40 + (bs[3] as int - 0x80)
  }

  /** Decoding the encoding of a character gives its code point back, so
      different characters have different encodings. */
  lemma DecodeEncode(c: char)
    ensures DecodeValue(Encode(c)) == c as int
  {
    var v := c as int;
    if v >= 0x10000 {
      var a, b, d, e := v / 0x40000, v / 0x1000 % 0x40, v / 0x40 % 0x40, v % 0x40;
      assert v / 0x1000 == a * 0x40 + b;
      assert v / 0x40 == (a * 0x40 + b) * 0x40 + d;
    } else if v >= 0x800 {
      assert v / 0x40 == v / 0x1000 * 0x40 + v / 0x40 % 0x40;
    }
  }

  /** The encoding of a text, character by character. */
  function EncodeText(s: string): seq<Byte>
    decreases |s|
  {
    if |s| == 0 then [] else EncodeText(s[..|s| - 1]) + Encode(s[|s| - 1])
  }

  lemma {:induction false} EncodeTextConcat(a: string, b: string)
    ensures EncodeText(a + b) == EncodeText(a) + EncodeText(b)
    decreases |b|
  {
    if |b| > 0 {
      var b' := b[..|b| - 1];
      assert (a + b)[..|a + b| - 1] == a + b';
      EncodeTextConcat(a, b');
    } else {
      assert a + b == a;
    }
  }

  /** The byte offset of character `i`: the length of the encoding of the
      text before it. */
  function ByteOffset(text: string, i: nat): nat
    requires i <= |text|
  {
    |EncodeText(text[..i])|
  }

  /** `make_offset_map`: one entry per character plus one for the end of
      the text, each the running total of the byte widths before it. */
  method MakeOffsetMap(text: string) returns (m: map<int, int>)
    ensures forall i :: i in m <==> 0 <= i <= |text|
    ensures forall i :: 0 <= i <= |text| ==> m[i] == ByteOffset(text, i)
  {
    var offsets: seq<int> := [];
    var offset := 0;
    for k := 0 to |text|
      invariant |offsets| == k
      invariant forall j :: 0 <= j < k ==> offsets[j] == ByteOffset(text, j)
      invariant offset == ByteOffset(text, k)
    {
      offsets := offsets + [offset];
      ByteOffsetStep(text, k);
      offset := offset + Utf8Width(text[k]);
    }
    offsets := offsets + [offset];
    m := map i | 0 <= i < |offsets| :: offsets[i];
  }

  /** Entry 0 is 0. */
  lemma ByteOffsetZero(text: string)
    ensures ByteOffset(text, 0) == 0
  {
    assert text[..0] == [];
  }

  /** Each entry is the one before plus the width of the character between
      them. */
  lemma ByteOffsetStep(text: string, i: nat)
    requires i < |text|
    ensures ByteOffset(text, i + 1) == ByteOffset(text, i) + Utf8Width(text[i])
  {
    assert text[..i + 1][..i] == text[..i];
  }

  /** The entries strictly increase. */
  lemma {:induction false} ByteOffsetIncreasing(text: string, i: nat, j: nat)
    requires i < j <= |text|
    ensures ByteOffset(text, i) < ByteOffset(text, j)
    decreases j - i
  {
    ByteOffsetStep(text, j - 1);
    if i < j - 1 {
      ByteOffsetIncreasing(text, i, j - 1);
    }
  }

  /** The last entry is the length of the encoded text. */
  lemma ByteOffsetLast(text: string)
    ensures ByteOffset(text, |text|) == |EncodeText(text)|
  {
    assert text[..|text|] == text;
  }

  predicate Ascii(text: string) {
    forall k :: 0 <= k < |text| ==> text[k] as int < 0x80
  }

  /** For ASCII text the table is the identity. */
  lemma {:induction false} AsciiIdentity(text: string, i: nat)
    requires Ascii(text) && i <= |text|
    ensures ByteOffset(text, i) == i
    decreases i
  {
    if i == 0 {
      ByteOffsetZero(text);
    } else {
      ByteOffsetStep(text, i - 1);
      AsciiIdentity(text, i - 1);
    }
  }

  /** A text with a character beyond ASCII has a longer encoding. */
  lemma NonAsciiLonger(text: string, k: nat)
    requires k < |text| && text[k] as int >= 0x80
    ensures ByteOffset(text, |text|) > |text|
  {
    ByteOffsetStep(text, k);
    if k + 1 < |text| {
      ByteOffsetGrows(text, k + 1, |text|);
    }
    ByteOffsetGrows(text, 0, k);
    ByteOffsetZero(text);
  }

  /** Between two entries the offsets grow by at least the number of
      characters. */
  lemma {:induction false} ByteOffsetGrows(text: string, i: nat, j: nat)
    requires i <= j <= |text|
    ensures ByteOffset(text, j) - ByteOffset(text, i) >= j - i
    decreases j - i
  {
    if i < j {
      ByteOffsetStep(text, j - 1);
      ByteOffsetGrows(text, i, j - 1);
    }
  }

  lemma SliceMiddle<T>(a: seq<T>, b: seq<T>, c: seq<T>)
    ensures (a + b + c)[|a|..|a| + |b|] == b
  {
  }

  /** The encoding of characters `i..j` sits between entries `i` and `j`. */
  lemma EncodedRange(text: string, i: nat, j: nat)
    requires i <= j <= |text|
    ensures ByteOffset(text, i) <= ByteOffset(text, j) <= |EncodeText(text)|
    ensures EncodeText(text)[ByteOffset(text, i)..ByteOffset(text, j)] == EncodeText(text[i..j])
  {
    var a, b, c := text[..i], text[i..j], text[j..];
    assert text == a + b + c;
    assert text[..j] == a + b;
    EncodeTextConcat(a + b, c);
    EncodeTextConcat(a, b);
    SliceMiddle(EncodeText(a), EncodeText(b), EncodeText(c));
  }

  /** Character `i` occupies exactly the bytes from its entry to the next:
      they are its encoding, and the first of them is a lead byte. */
  lemma CharacterBytes(text: string, i: nat)
    requires i < |text|
    ensures ByteOffset(text, i) < ByteOffset(text, i + 1) <= |EncodeText(text)|
    ensures EncodeText(text)[ByteOffset(text, i)..ByteOffset(text, i + 1)] == Encode(text[i])
    ensures LeadWidth(EncodeText(text)[ByteOffset(text, i)]) == Utf8Width(text[i])
  {
    ByteOffsetStep(text, i);
    EncodedRange(text, i, i + 1);
    var one := text[i..i + 1];
    assert one[..0] == [] && one[0] == text[i];
    assert EncodeText(one) == Encode(text[i]);
  }

  /** A span over characters `start..end` (end inclusive) has its byte
      offsets at the first byte of its first character and at the first
      byte of its last character (a lead byte, by `CharacterBytes`); adding
      the width of the last character gives exactly the encoding of the
      spanned characters. */
  lemma SpanBytes(text: string, start: nat, end: nat)
    requires start <= end < |text|
    ensures ByteOffset(text, start) <= ByteOffset(text, end)
    ensures ByteOffset(text, end) + Utf8Width(text[end]) == ByteOffset(text, end + 1) <= |EncodeText(text)|
    ensures EncodeText(text)[ByteOffset(text, start)..ByteOffset(text, end + 1)] == EncodeText(text[start..end + 1])
  {
    ByteOffsetStep(text, end);
    if start < end {
      ByteOffsetIncreasing(text, start, end);
    }
    EncodedRange(text, start, end + 1);
  }

  /** The lines of the remapping loop: both offsets of a span are looked
      up in the same table; an offset outside it is the `KeyError` of the
      dictionary lookup. */
  function RemapSpan(m: map<int, int>, sp: StringSpan): (r: Result<StringSpan>)
    ensures r.Failure? <==> sp.start !in m || sp.end !in m
    ensures r.Failure? ==> r.error == KeyError
    ensures r.Success? ==> r.value.(start := sp.start, end := sp.end) == sp
  {
    if sp.start !in m || sp.end !in m then Failure(KeyError)
    else Success(sp.(start := m[sp.start], end := m[sp.end]))
  }

  /** The spans of one document, remapped in order; the first offset
      outside the table stops the document. */
  function RemapSpans(m: map<int, int>, spans: seq<StringSpan>): (r: Result<seq<StringSpan>>)
    ensures r.Failure? <==> exists k :: 0 <= k < |spans| && RemapSpan(m, spans[k]).Failure?
    ensures r.Success? ==> |r.value| == |spans|
    ensures r.Success? ==> forall k :: 0 <= k < |spans| ==> RemapSpan(m, spans[k]) == Success(r.value[k])
    decreases |spans|
  {
    if |spans| == 0 then Success([])
    else
      var first :- RemapSpan(m, spans[0]);
      var rest :- RemapSpans(m, spans[1..]);
      assert forall k :: 1 <= k < |spans| ==> spans[k] == spans[1..][k - 1];
      Success([first] + rest)
  }

  /** Remapping through the table of the document text moves both offsets
      of a span inside the text to their byte offsets (see `SpanBytes`). */
  lemma RemapThroughTable(text: string, m: map<int, int>, sp: StringSpan)
    requires forall i :: i in m <==> 0 <= i <= |text|
    requires forall i :: 0 <= i <= |text| ==> m[i] == ByteOffset(text, i)
    requires 0 <= sp.start <= sp.end < |text|
    ensures RemapSpan(m, sp) == Success(sp.(start := ByteOffset(text, sp.start), end := ByteOffset(text, sp.end)))
  {
  }

  /** An offset past the end of the text, or negative, is a `KeyError`. */
  lemma RemapOutsideTable(text: string, m: map<int, int>, sp: StringSpan)
    requires forall i :: i in m <==> 0 <= i <= |text|
    requires sp.start < 0 || sp.end > |text|
    ensures RemapSpan(m, sp) == Failure(KeyError)
  {
  }
}
