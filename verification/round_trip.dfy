/** Decoding what the encoder wrote gives back the value that was written. */
module RoundTrip {
  import opened Ascii
  import opened Errors
  import opened Ints
  import opened Stream
  import opened DataModel
  import opened De
  import opened Ser

  /** The values the codec carries both ways: integers of their type that are
      also `i64`s, ASCII strings no longer than a Rust allocation can be, and
      lists of such values. */
  predicate Canonical(d: Data) {
    match d
    case Int(w, n) => w.Fits(n) && IsI64(n)
    case Str(s) => IsAscii(s) && |s| <= I64_MAX
    case Seq(items) => forall i :: 0 <= i < |items| ==> Canonical(items[i])
    case _ => false
  }

  lemma {:induction false} CanonicalIsEncodable(d: Data)
    requires Canonical(d)
    ensures NoTuple(d) && Supported(d)
  {
    if d.Seq? {
      forall i | 0 <= i < |d.items|
        ensures NoTuple(d.items[i]) && Supported(d.items[i])
      {
        CanonicalIsEncodable(d.items[i]);
      }
    }
  }

  /** The terminator search stops at the first terminator. */
  lemma {:induction false} TokenEndAt(data: seq<Byte>, i: nat, t: Byte, k: nat)
    requires i <= k < |data| && data[k] == t
    requires forall j :: i <= j < k ==> data[j] != t
    ensures TokenEnd(data, i, t) == k
    decreases k - i
  {
    if i < k {
      TokenEndAt(data, i + 1, t, k);
    }
  }

  /** A slice of a buffer that holds `enc` at `q` is the matching slice of `enc`. */
  lemma SliceOf(data: seq<Byte>, q: nat, enc: seq<Byte>, a: nat, b: nat)
    requires q + |enc| <= |data| && data[q..q + |enc|] == enc
    requires a <= b <= |enc|
    ensures data[q + a..q + b] == enc[a..b]
    ensures forall j :: a <= j < b ==> data[q + j] == enc[j]
  {
    forall j | a <= j < b
      ensures data[q + j] == enc[j]
    {
      assert data[q + j] == data[q..q + |enc|][j];
    }
  }

  /** `txt` is the decimal text of `n`: `-` and a spelling `ds` of the
      magnitude when `n` is negative, just `ds` otherwise. */
  predicate SignedSpells(txt: seq<Byte>, ds: seq<Byte>, n: int) {
    if n < 0 then txt == [MINUS] + ds && Spells(ds, -n) else txt == ds && Spells(ds, n)
  }

  /** The decimal text of an integer spells it. */
  lemma DecimalSpelling(n: int) returns (ds: seq<Byte>)
    ensures SignedSpells(Decimal(n), ds, n)
  {
    if n < 0 {
      ds := Digits(-n);
      DigitsSpell(-n);
    } else {
      ds := Digits(n);
      DigitsSpell(n);
    }
  }

  /** The decimal text of `n` followed by a terminator that is neither a digit
      nor `-` is lexed back as `n`, with the terminator consumed. */
  lemma NumberToken(data: seq<Byte>, p: nat, txt: seq<Byte>, ds: seq<Byte>, n: int, t: Byte)
    requires IsI64(n) && SignedSpells(txt, ds, n)
    requires p + |txt| < |data| && data[p..p + |txt|] == txt
    requires data[p + |txt|] == t && !IsDigit(t) && t != MINUS
    ensures NumberSpec(data, p, t) == Ok((n, p + |txt| + 1))
  {
    if n < 0 {
      assert [] + [MINUS] + ds == txt;
      Parts(data, p, [], MINUS, ds);
      NegativeToken(data, p, ds, -n, t);
    } else {
      NonNegativeToken(data, p, ds, n, t);
    }
  }

  lemma NegativeToken(data: seq<Byte>, p: nat, ds: seq<Byte>, m: int, t: Byte)
    requires 0 < m && IsI64(-m) && Spells(ds, m)
    requires p + 1 + |ds| < |data| && data[p] == MINUS && data[p + 1..p + 1 + |ds|] == ds
    requires data[p + 1 + |ds|] == t && !IsDigit(t) && t != MINUS
    ensures NumberSpec(data, p, t) == Ok((-m, p + 1 + |ds| + 1))
  {
    var k := p + 1 + |ds|;
    DigitsToken(data, p + 1, ds, m, t);
    SpecNegative(data, p, t, k, m);
  }

  lemma NonNegativeToken(data: seq<Byte>, p: nat, ds: seq<Byte>, m: nat, t: Byte)
    requires IsI64(m) && Spells(ds, m)
    requires p + |ds| < |data| && data[p..p + |ds|] == ds
    requires data[p + |ds|] == t && !IsDigit(t) && t != MINUS
    ensures NumberSpec(data, p, t) == Ok((m, p + |ds| + 1))
  {
    var k := p + |ds|;
    DigitsToken(data, p, ds, m, t);
    LeadingDigitRun(data, p, k);
    TokenEndAt(data, p + 1, t, k);
    SpecNonNegative(data, p, t, k, m);
  }

  /** The digits of `m` followed by a terminator: the run up to the
      terminator is exactly those digits, and denotes `m`. */
  lemma DigitsToken(data: seq<Byte>, p: nat, ds: seq<Byte>, m: nat, t: Byte)
    requires Spells(ds, m)
    requires p + |ds| < |data| && data[p..p + |ds|] == ds
    requires data[p + |ds|] == t && !IsDigit(t)
    ensures TokenEnd(data, p, t) == p + |ds|
    ensures AllDigits(data[p..p + |ds|]) && Val(data[p..p + |ds|]) == m
    ensures data[p] == ZERO ==> m == 0
  {
    var k := p + |ds|;
    SliceOf(data, p, ds, 0, |ds|);
    TokenEndAt(data, p, t, k);
    assert data[p] == ds[0];
  }

  /** A run of digits stays one after its first byte. */
  lemma LeadingDigitRun(data: seq<Byte>, p: nat, k: nat)
    requires p < k <= |data| && AllDigits(data[p..k])
    ensures IsDigit(data[p]) && AllDigits(data[p + 1..k])
  {
    assert data[p] == data[p..k][0];
    assert data[p + 1..k] == data[p..k][1..];
  }

  /** `NumberSpec` of `-` and a digit run denoting `m`. */
  lemma SpecNegative(data: seq<Byte>, p: nat, t: Byte, k: nat, m: int)
    requires p < k < |data| && data[p] == MINUS && IsI64(-m)
    requires TokenEnd(data, p + 1, t) == k && AllDigits(data[p + 1..k]) && Val(data[p + 1..k]) == m
    ensures NumberSpec(data, p, t) == Ok((-m, k + 1))
  {
  }

  /** `NumberSpec` of a digit run denoting `m` with no leading zero unless
      it is `0`. */
  lemma SpecNonNegative(data: seq<Byte>, p: nat, t: Byte, k: nat, m: int)
    requires p < k < |data| && IsI64(m)
    requires TokenEnd(data, p + 1, t) == k && IsDigit(data[p]) && AllDigits(data[p + 1..k])
    requires AllDigits(data[p..k]) && Val(data[p..k]) == m && (data[p] == ZERO ==> m == 0)
    ensures NumberSpec(data, p, t) == Ok((m, k + 1))
  {
  }

  /** `i<n>e` at position `q` reads back as `n`, whatever surrounds it. */
  lemma NumberRoundTrip(data: seq<Byte>, q: nat, w: IntType, n: int, enc: seq<Byte>)
    requires IsI64(n) && w.Fits(n) && enc == SerNumber([], n)
    requires q + |enc| <= |data| && data[q..q + |enc|] == enc
    ensures ParseNumeric(BinaryStream(data, q), w) == Ok((n, BinaryStream(data, q + |enc|)))
  {
    NumberLayout(n);
    var ds := DecimalSpelling(n);
    NumberAt(data, q, w, n, Decimal(n), ds, q + |enc|);
  }

  /** `i`, the decimal text of `n`, and `e` at `q`: `parse_numeric` reads
      `n` and stops after the `e`. */
  lemma NumberAt(data: seq<Byte>, q: nat, w: IntType, n: int, txt: seq<Byte>, ds: seq<Byte>, hi: nat)
    requires IsI64(n) && w.Fits(n) && SignedSpells(txt, ds, n)
    requires hi == q + 1 + |txt| + 1 <= |data|
    requires data[q..hi] == [INT_TAG] + txt + [END_TAG]
    ensures ParseNumeric(BinaryStream(data, q), w) == Ok((n, BinaryStream(data, hi)))
  {
    Tagged(data, q, INT_TAG, txt, END_TAG, hi);
    NumberToken(data, q + 1, txt, ds, n, END_TAG);
    Lexed(data, q + 1, END_TAG, n, hi);
    NumberFrame(data, q, w, n, hi);
  }

  /** A token `NumberSpec` describes is what the lexer reads. */
  lemma Lexed(data: seq<Byte>, p: nat, t: Byte, n: int, k: nat)
    requires p <= |data| && NumberSpec(data, p, t) == Ok((n, k))
    ensures ParseSeqNumber(BinaryStream(data, p), t) == Ok((n, BinaryStream(data, k)))
  {
    ParseSeqNumberMeetsSpec(BinaryStream(data, p), t);
  }

  /** A slice holding one byte `a`, then `body`, then one byte `z`. */
  lemma Tagged(data: seq<Byte>, q: nat, a: Byte, body: seq<Byte>, z: Byte, hi: nat)
    requires hi == q + 1 + |body| + 1 <= |data| && data[q..hi] == [a] + body + [z]
    ensures data[q] == a && data[q + 1..q + 1 + |body|] == body && data[q + 1 + |body|] == z
  {
    Parts(data, q, [], a, body + [z]);
    assert [] + [a] + (body + [z]) == [a] + body + [z];
    Parts(data, q + 1, body, z, []);
    assert body + [z] + [] == body + [z];
  }

  /** An `i` and a number the lexer reads up to `hi`: `parse_numeric`
      returns it when it fits the width. */
  lemma NumberFrame(data: seq<Byte>, q: nat, w: IntType, n: int, hi: nat)
    requires q < hi <= |data| && data[q] == INT_TAG && w.Fits(n)
    requires ParseSeqNumber(BinaryStream(data, q + 1), END_TAG) == Ok((n, BinaryStream(data, hi)))
    ensures ParseNumeric(BinaryStream(data, q), w) == Ok((n, BinaryStream(data, hi)))
  {
    assert TryNext(BinaryStream(data, q)) == Ok((INT_TAG, BinaryStream(data, q + 1)));
  }

  /** `<len>:<bytes>` at position `q`, the length spelled by `ds`, reads
      back as the bytes, one char per byte, and the head ends just past it. */
  lemma StringRoundTrip(data: seq<Byte>, q: nat, ds: seq<Byte>, bytes: seq<Byte>, enc: seq<Byte>)
    requires |bytes| <= I64_MAX && Spells(ds, |bytes|) && enc == ds + [COLON] + bytes
    requires q + |enc| <= |data| && data[q..q + |enc|] == enc
    ensures ParseString(BinaryStream(data, q)) == Ok((Latin1(bytes), BinaryStream(data, q + |enc|)))
  {
    Parts(data, q, ds, COLON, bytes);
    StringPieces(data, q, ds, |bytes|, bytes);
  }

  /** A length, `:`, and that many bytes at `q`, each part in place. */
  lemma StringPieces(data: seq<Byte>, q: nat, ds: seq<Byte>, n: nat, bytes: seq<Byte>)
    requires n <= I64_MAX && |bytes| == n && Spells(ds, n)
    requires q + |ds| + 1 + |bytes| <= |data|
    requires data[q..q + |ds|] == ds && data[q + |ds|] == COLON
    requires data[q + |ds| + 1..q + |ds| + 1 + |bytes|] == bytes
    ensures ParseString(BinaryStream(data, q)) == Ok((Latin1(bytes), BinaryStream(data, q + |ds| + 1 + |bytes|)))
  {
    StringLength(data, q, ds, n);
    StringFrame(data, q, q + |ds| + 1, n, bytes, q + |ds| + 1 + |bytes|);
  }

  /** A slice holding `a`, one byte `c`, then `b`. */
  lemma Parts(data: seq<Byte>, q: nat, a: seq<Byte>, c: Byte, b: seq<Byte>)
    requires q + |a| + 1 + |b| <= |data| && data[q..q + |a| + 1 + |b|] == a + [c] + b
    ensures data[q..q + |a|] == a && data[q + |a|] == c && data[q + |a| + 1..q + |a| + 1 + |b|] == b
  {
    var enc := a + [c] + b;
    SliceOf(data, q, enc, 0, |a|);
    SliceOf(data, q, enc, |a|, |a| + 1);
    SliceOf(data, q, enc, |a| + 1, |enc|);
    assert enc[0..|a|] == a && enc[|a|] == c && enc[|a| + 1..|enc|] == b;
  }

  /** The length prefix of a string token is lexed back as the length, with
      the colon consumed. */
  lemma StringLength(data: seq<Byte>, q: nat, ds: seq<Byte>, n: nat)
    requires n <= I64_MAX && Spells(ds, n)
    requires q + |ds| < |data| && data[q..q + |ds|] == ds && data[q + |ds|] == COLON
    ensures ParseSeqNumber(BinaryStream(data, q), COLON) == Ok((n, BinaryStream(data, q + |ds| + 1)))
  {
    NonNegativeToken(data, q, ds, n, COLON);
    Lexed(data, q, COLON, n, q + |ds| + 1);
  }

  /** A length `n` read up to `body`, then `n` bytes that read as `s`: the
      string visitor receives `s`. */
  lemma StringFrame(data: seq<Byte>, q: nat, body: nat, n: nat, bytes: seq<Byte>, hi: nat)
    requires q <= body <= |data| && n <= I64_MAX && |bytes| == n && hi == body + |bytes| <= |data|
    requires ParseSeqNumber(BinaryStream(data, q), COLON) == Ok((n, BinaryStream(data, body)))
    requires data[body..hi] == bytes
    ensures ParseString(BinaryStream(data, q)) == Ok((Latin1(bytes), BinaryStream(data, hi)))
  {
    assert AsUsize(n) == n;
    assert TakeBytes(BinaryStream(data, body), n) == (bytes, BinaryStream(data, hi));
  }

  /** A value of type `shape` encoded at position `q` reads back as itself,
      and the head ends just past its encoding. */
  lemma {:induction false} DecodeEncoded(shape: Shape, d: Data, data: seq<Byte>, q: nat)
    requires HasShape(d, shape) && Canonical(d)
    requires NoTuple(d)
    requires q + |Encoded(d)| <= |data| && data[q..q + |Encoded(d)|] == Encoded(d)
    ensures Decode(shape, BinaryStream(data, q)) == Ok((d, BinaryStream(data, q + |Encoded(d)|)))
    decreases d, 1
  {
    var enc := Encoded(d);
    match d
    case Int(w, n) =>
      assert shape == IntOf(w);
      IntRoundTrip(w, n, data, q, enc);
    case Str(s) =>
      assert shape == Text;
      TextRoundTrip(s, data, q, enc);
    case Seq(items) =>
      assert shape == VecOf(shape.elem);
      ListRoundTrip(shape.elem, items, data, q, enc);
  }

  /** `NumberRoundTrip` for the value as the encoder sees it. */
  lemma IntRoundTrip(w: IntType, n: int, data: seq<Byte>, q: nat, enc: seq<Byte>)
    requires IsI64(n) && w.Fits(n) && enc == Encoded(Int(w, n))
    requires q + |enc| <= |data| && data[q..q + |enc|] == enc
    ensures Decode(IntOf(w), BinaryStream(data, q)) == Ok((Int(w, n), BinaryStream(data, q + |enc|)))
  {
    EncodedInt(w, n);
    IntAt(w, n, data, q, enc);
  }

  lemma IntAt(w: IntType, n: int, data: seq<Byte>, q: nat, enc: seq<Byte>)
    requires IsI64(n) && w.Fits(n) && enc == SerNumber([], n)
    requires q + |enc| <= |data| && data[q..q + |enc|] == enc
    ensures Decode(IntOf(w), BinaryStream(data, q)) == Ok((Int(w, n), BinaryStream(data, q + |enc|)))
  {
    NumberRoundTrip(data, q, w, n, enc);
    DecodeInt(w, BinaryStream(data, q), n, BinaryStream(data, q + |enc|));
  }

  /** `StringRoundTrip` for the value as the encoder sees it. */
  lemma TextRoundTrip(s: string, data: seq<Byte>, q: nat, enc: seq<Byte>)
    requires IsAscii(s) && |s| <= I64_MAX && enc == Encoded(Str(s))
    requires q + |enc| <= |data| && data[q..q + |enc|] == enc
    ensures Decode(Text, BinaryStream(data, q)) == Ok((Str(s), BinaryStream(data, q + |enc|)))
  {
    EncodedStr(s);
    TextAt(s, data, q, enc);
  }

  lemma TextAt(s: string, data: seq<Byte>, q: nat, enc: seq<Byte>)
    requires IsAscii(s) && |s| <= I64_MAX && enc == SerString([], s)
    requires q + |enc| <= |data| && data[q..q + |enc|] == enc
    ensures Decode(Text, BinaryStream(data, q)) == Ok((Str(s), BinaryStream(data, q + |enc|)))
  {
    var ds := TextSpelling(s);
    StringRoundTrip(data, q, ds, Utf8(s), enc);
    DecodeText(BinaryStream(data, q), s, BinaryStream(data, q + |enc|));
  }

  /** The encoding of an ASCII string: a spelling of its length, `:`, and
      bytes that read back one char per byte as the string. */
  lemma TextSpelling(s: string) returns (ds: seq<Byte>)
    requires IsAscii(s)
    ensures Spells(ds, |s|) && |Utf8(s)| == |s| && Latin1(Utf8(s)) == s
    ensures SerString([], s) == ds + [COLON] + Utf8(s)
  {
    StringLayout(s);
    ds := Digits(|s|);
    DigitsSpell(|s|);
  }

  lemma {:induction false} ListRoundTrip(e: Shape, items: seq<Data>, data: seq<Byte>, q: nat, enc: seq<Byte>)
    requires HasShape(Seq(items), VecOf(e)) && Canonical(Seq(items))
    requires NoTuple(Seq(items)) && enc == Encoded(Seq(items))
    requires q + |enc| <= |data| && data[q..q + |enc|] == enc
    ensures Decode(VecOf(e), BinaryStream(data, q)) == Ok((Seq(items), BinaryStream(data, q + |enc|)))
    decreases Seq(items), 0
  {
    var endPos := ListPieces(e, items, data, q);
    ListFrame(e, data, q, items, endPos, q + |enc|);
  }

  /** Where the parts of an encoded list sit, and that the `Vec` visitor
      reads its body back. */
  lemma ListPieces(e: Shape, items: seq<Data>, data: seq<Byte>, q: nat) returns (endPos: nat)
    requires HasShape(Seq(items), VecOf(e)) && Canonical(Seq(items))
    requires NoTuple(Seq(items))
    requires q + |Encoded(Seq(items))| <= |data| && data[q..q + |Encoded(Seq(items))|] == Encoded(Seq(items))
    ensures q < endPos < |data| && endPos + 1 == q + |Encoded(Seq(items))|
    ensures data[q] == LIST_TAG && data[endPos] == END_TAG
    ensures VisitVec(e, BinaryStream(data, q + 1), []) == Ok((items, BinaryStream(data, endPos)))
    decreases Seq(items), 0, |items| + 2
  {
    CanonicalIsEncodable(Seq(items));
    SeqLayout(items);
    var body := EncodedFrom(items, 0);
    endPos := q + 1 + |body|;
    Bracketed(data, q, q + |Encoded(Seq(items))|, body);
    VisitVecFromStart(e, items, data, q + 1, endPos);
  }

  /** The `Vec` visitor, started on an encoded list's body, reads all of it. */
  lemma VisitVecFromStart(e: Shape, items: seq<Data>, data: seq<Byte>, pos: nat, endPos: nat)
    requires HasShape(Seq(items), VecOf(e)) && Canonical(Seq(items)) && NoTuple(Seq(items))
    requires pos + |EncodedFrom(items, 0)| == endPos < |data|
    requires data[pos..endPos] == EncodedFrom(items, 0) && data[endPos] == END_TAG
    ensures VisitVec(e, BinaryStream(data, pos), []) == Ok((items, BinaryStream(data, endPos)))
    decreases Seq(items), 0, |items| + 1
  {
    assert items[..0] == [];
    VisitVecRoundTrip(e, items, 0, data, pos, endPos);
  }

  /** A slice holding `l<body>e`. */
  lemma Bracketed(data: seq<Byte>, lo: nat, hi: nat, body: seq<Byte>)
    requires lo <= hi <= |data| && data[lo..hi] == [LIST_TAG] + body + [END_TAG]
    ensures hi == lo + |body| + 2
    ensures data[lo] == LIST_TAG && data[hi - 1] == END_TAG
    ensures data[lo + 1..hi - 1] == body
  {
    SplitSlice(data, lo, hi, [LIST_TAG], body + [END_TAG]);
    SplitSlice(data, lo + 1, hi, body, [END_TAG]);
    assert data[lo] == data[lo..lo + 1][0];
    assert data[hi - 1] == data[hi - 1..hi][0];
  }

  /** An `l`, a run the `Vec` visitor reads as `items` up to `endPos`, and
      the `e` there: a `Vec` of those items. */
  lemma ListFrame(e: Shape, data: seq<Byte>, q: nat, items: seq<Data>, endPos: nat, hi: nat)
    requires q < endPos < |data| && data[q] == LIST_TAG && data[endPos] == END_TAG && hi == endPos + 1
    requires VisitVec(e, BinaryStream(data, q + 1), []) == Ok((items, BinaryStream(data, endPos)))
    ensures Decode(VecOf(e), BinaryStream(data, q)) == Ok((Seq(items), BinaryStream(data, hi)))
  {
    var s := BinaryStream(data, q);
    var last := BinaryStream(data, endPos);
    assert s.(p := s.p + 1) == BinaryStream(data, q + 1);
    DecodeList(e, s, BinaryStream(data, q + 1), items, last);
    assert last.(p := last.p + 1) == BinaryStream(data, hi);
  }

  lemma {:induction false} VisitVecRoundTrip(e: Shape, items: seq<Data>, j: nat, data: seq<Byte>, pos: nat, endPos: nat)
    requires j <= |items|
    requires forall i :: 0 <= i < |items| ==> HasShape(items[i], e) && Canonical(items[i]) && NoTuple(items[i])
    requires pos + |EncodedFrom(items, j)| == endPos < |data|
    requires data[pos..endPos] == EncodedFrom(items, j) && data[endPos] == END_TAG
    ensures VisitVec(e, BinaryStream(data, pos), items[..j]) == Ok((items, BinaryStream(data, endPos)))
    decreases Seq(items), 0, |items| - j
  {
    if j == |items| {
      RunDone(e, items, data, pos, endPos);
    } else {
      VisitVecMore(e, items, j, data, pos, endPos);
    }
  }

  /** `VisitVecRoundTrip` from an element: the visitor takes it, then the
      rest. */
  lemma {:induction false} VisitVecMore(e: Shape, items: seq<Data>, j: nat, data: seq<Byte>, pos: nat, endPos: nat)
    requires j < |items|
    requires forall i :: 0 <= i < |items| ==> HasShape(items[i], e) && Canonical(items[i]) && NoTuple(items[i])
    requires pos + |EncodedFrom(items, j)| == endPos < |data|
    requires data[pos..endPos] == EncodedFrom(items, j) && data[endPos] == END_TAG
    ensures VisitVec(e, BinaryStream(data, pos), items[..j]) == Ok((items, BinaryStream(data, endPos)))
    decreases Seq(items), 0, |items| - j, 1
  {
    var next := VisitVecNext(e, items, j, data, pos, endPos);
    VisitVecRoundTrip(e, items, j + 1, data, next, endPos);
  }

  /** Past the last element the `Vec` visitor meets the `e` and returns
      everything it read. */
  lemma RunDone(e: Shape, items: seq<Data>, data: seq<Byte>, pos: nat, endPos: nat)
    requires forall i :: 0 <= i < |items| ==> HasShape(items[i], e) && NoTuple(items[i])
    requires pos + |EncodedFrom(items, |items|)| == endPos < |data| && data[endPos] == END_TAG
    ensures VisitVec(e, BinaryStream(data, pos), items[..|items|]) == Ok((items, BinaryStream(data, endPos)))
  {
    assert items[..|items|] == items;
    VisitVecAtEnd(e, BinaryStream(data, pos), items);
  }

  /** Element `j` of an encoded run: the `Vec` visitor takes it and moves to
      the encoding of the rest. */
  lemma VisitVecNext(e: Shape, items: seq<Data>, j: nat, data: seq<Byte>, pos: nat, endPos: nat) returns (next: nat)
    requires j < |items|
    requires forall i :: 0 <= i < |items| ==> HasShape(items[i], e) && Canonical(items[i]) && NoTuple(items[i])
    requires pos + |EncodedFrom(items, j)| == endPos < |data|
    requires data[pos..endPos] == EncodedFrom(items, j)
    ensures next + |EncodedFrom(items, j + 1)| == endPos
    ensures data[next..endPos] == EncodedFrom(items, j + 1)
    ensures VisitVec(e, BinaryStream(data, pos), items[..j]) == VisitVec(e, BinaryStream(data, next), items[..j + 1])
    decreases Seq(items), 0, |items| - j, 0
  {
    var d := items[j];
    assert HasShape(d, e) && Canonical(d) && NoTuple(d);
    next := RunSplit(items, j, data, pos, endPos);
    assert items[..j] + [items[j]] == items[..j + 1];
    VisitVecElement(e, d, data, pos, next, items[..j], items[..j + 1]);
  }

  /** Where element `j`'s encoding and the rest of the run sit. */
  lemma RunSplit(items: seq<Data>, j: nat, data: seq<Byte>, pos: nat, endPos: nat) returns (next: nat)
    requires j < |items|
    requires forall i :: 0 <= i < |items| ==> NoTuple(items[i])
    requires pos + |EncodedFrom(items, j)| == endPos <= |data|
    requires data[pos..endPos] == EncodedFrom(items, j)
    ensures next == pos + |Encoded(items[j])|
    ensures next <= endPos && data[pos..next] == Encoded(items[j])
    ensures next + |EncodedFrom(items, j + 1)| == endPos
    ensures data[next..endPos] == EncodedFrom(items, j + 1)
  {
    EncodedFromStep(items, j);
    SplitSlice(data, pos, endPos, Encoded(items[j]), EncodedFrom(items, j + 1));
    next := pos + |Encoded(items[j])|;
  }

  /** The run from element `j` is element `j`'s encoding, then the rest. */
  lemma EncodedFromStep(items: seq<Data>, j: nat)
    requires j < |items|
    requires forall i :: 0 <= i < |items| ==> NoTuple(items[i])
    ensures EncodedFrom(items, j) == Encoded(items[j]) + EncodedFrom(items, j + 1)
  {
  }

  /** A slice holding `a + b` holds `a` then `b`. */
  lemma SplitSlice(data: seq<Byte>, lo: nat, hi: nat, a: seq<Byte>, b: seq<Byte>)
    requires lo <= hi <= |data| && data[lo..hi] == a + b
    ensures lo + |a| <= hi
    ensures data[lo..lo + |a|] == a && data[lo + |a|..hi] == b
  {
    SliceOf(data, lo, a + b, 0, |a|);
    SliceOf(data, lo, a + b, |a|, |a + b|);
    assert (a + b)[0..|a|] == a;
    assert (a + b)[|a|..|a + b|] == b;
  }

  /** An encoded element in front of the cursor: the `Vec` visitor decodes
      it, appends it, and carries on after it. */
  lemma VisitVecElement(e: Shape, d: Data, data: seq<Byte>, pos: nat, next: nat, acc: seq<Data>, acc': seq<Data>)
    requires HasShape(d, e) && Canonical(d) && NoTuple(d)
    requires next == pos + |Encoded(d)| <= |data| && data[pos..next] == Encoded(d)
    requires acc' == acc + [d]
    ensures VisitVec(e, BinaryStream(data, pos), acc) == VisitVec(e, BinaryStream(data, next), acc')
    decreases d, 3
  {
    ElementAt(e, d, data, pos, next);
    VisitVecStep(e, BinaryStream(data, pos), acc, d, BinaryStream(data, next));
  }

  /** An encoded element in front of the cursor decodes as itself and does
      not start with `e`. */
  lemma ElementAt(e: Shape, d: Data, data: seq<Byte>, pos: nat, next: nat)
    requires HasShape(d, e) && Canonical(d) && NoTuple(d)
    requires next == pos + |Encoded(d)| <= |data| && data[pos..next] == Encoded(d)
    ensures pos < |data| && data[pos] != END_TAG
    ensures Decode(e, BinaryStream(data, pos)) == Ok((d, BinaryStream(data, next)))
    decreases d, 2
  {
    CanonicalIsEncodable(d);
    DecodeEncoded(e, d, data, pos);
    FirstByte(d);
    assert data[pos] == data[pos..next][0];
  }

  /** The `Vec` visitor stops, keeping what it has, when the next byte is `e`. */
  lemma VisitVecAtEnd(e: Shape, st: BinaryStream, acc: seq<Data>)
    requires st.Valid() && st.p < |st.data| && st.data[st.p] == END_TAG
    ensures VisitVec(e, st, acc) == Ok((acc, st))
  {
  }

  /** One element decoded: the `Vec` visitor appends it and carries on. */
  lemma VisitVecStep(e: Shape, st: BinaryStream, acc: seq<Data>, d: Data, st': BinaryStream)
    requires st.Valid() && st.p < |st.data| && st.data[st.p] != END_TAG
    requires Decode(e, st) == Ok((d, st'))
    ensures st'.Valid()
    ensures VisitVec(e, st, acc) == VisitVec(e, st', acc + [d])
  {
    assert NextElement(e, st) == Ok((Some(d), st'));
  }

  /** `from_binary` of `to_binary`'s output is the original value, and any
      bytes after the token are ignored. */
  lemma FromBinaryToBinary(shape: Shape, d: Data, rest: seq<Byte>)
    requires HasShape(d, shape) && Canonical(d)
    ensures NoTuple(d) && ToBinary(d).Ok?
    ensures FromBinary(shape, ToBinary(d).value + rest) == Ok(d)
  {
    CanonicalIsEncodable(d);
    var data := ToBinary(d).value + rest;
    assert data[0..|Encoded(d)|] == Encoded(d);
    DecodeEncoded(shape, d, data, 0);
  }
}
