/** The encoder: appends the bencoding of the values the serialization
    protocol hands it to a growing output container. Every operation takes
    the container so far and returns the container after the call; a failing
    call also returns the container, as the writes it made before failing are
    not undone. */
module Ser {
  import opened Ascii
  import opened Errors
  import opened Ints
  import opened DataModel

  /** `push_bytes`: `extend_from_slice` on the container. */
  function PushBytes(out: seq<Byte>, bytes: seq<Byte>): seq<Byte>
  {
    out + bytes
  }

  /** `ser_number`: `i`, the decimal text of `n`, `e`. */
  function SerNumber(out: seq<Byte>, n: int): (r: seq<Byte>)
    ensures |r| == |out| + |Decimal(n)| + 2
  {
    PushBytes(PushBytes(PushBytes(out, [INT_TAG]), Decimal(n)), [END_TAG])
  }

  /** `ser_bytes`: the decimal length, `:`, then the bytes verbatim. */
  function SerBytes(out: seq<Byte>, bytes: seq<Byte>): (r: seq<Byte>)
    ensures |r| == |out| + |Digits(|bytes|)| + 1 + |bytes|
  {
    PushBytes(PushBytes(PushBytes(out, Digits(|bytes|)), [COLON]), bytes)
  }

  /** `ser_string`: `ser_bytes` of the string's UTF-8 bytes. */
  function SerString(out: seq<Byte>, s: string): (r: seq<Byte>)
    ensures IsAscii(s) ==> |r| == |out| + |Digits(|s|)| + 1 + |s|
  {
    SerBytes(out, Utf8(s))
  }

  /** The values the encoder accepts: no `bool`, float or `char` anywhere and
      no `u64` above `i64::MAX`. An absent option is accepted. */
  predicate Supported(d: Data) {
    match d
    case Bool(_) => false
    case Float32 => false
    case Float64 => false
    case Char(_) => false
    case Int(w, n) => !(w == U64 && n > I64_MAX)
    case OptSome(x) => Supported(x)
    case Seq(items) => forall i :: 0 <= i < |items| ==> Supported(items[i])
    case _ => true
  }

  /** `Serialize` for the serializer: dispatch on the call the value makes.
      Tuples are excluded: the encoder's tuple path is unimplemented. */
  function Serialize(out: seq<Byte>, d: Data): (r: (Result<()>, seq<Byte>))
    requires NoTuple(d)
    ensures out <= r.1
    ensures r.0.Ok? <==> Supported(d)
    ensures r.0.Err? ==> r.0.error == TypeNotSupported || r.0.error == Syntax
    ensures d.Bool? || d.Float32? || d.Float64? || d.Char? ==> r == (Err(TypeNotSupported), out)
    ensures d.Int? && d.width == U64 && d.n > I64_MAX ==> r == (Err(Syntax), out)
    decreases d, 1
  {
    match d
    case Bool(_) => (Err(TypeNotSupported), out)
    case Float32 => (Err(TypeNotSupported), out)
    case Float64 => (Err(TypeNotSupported), out)
    case Char(_) => (Err(TypeNotSupported), out)
    case Int(w, n) =>
      if w == U64 && n > I64_MAX then (Err(Syntax), out) else (Ok(()), SerNumber(out, n))
    case Str(s) => (Ok(()), SerString(out, s))
    case Bytes(b) => (Ok(()), SerBytes(out, b))
    case OptNone => (Ok(()), out)
    case OptSome(x) => Serialize(out, x)
    case Seq(items) =>
      Close(SerializeElements(SerializeSeq(out), items, 0))
  }

  /** `serialize_seq`: opens a list with `l`. */
  function SerializeSeq(out: seq<Byte>): seq<Byte>
  {
    PushBytes(out, [LIST_TAG])
  }

  /** `SerializeSeq::end`: closes the list with `e`. */
  function End(out: seq<Byte>): (Result<()>, seq<Byte>)
  {
    (Ok(()), PushBytes(out, [END_TAG]))
  }

  /** `SerializeSeq::serialize_element` for `items[i..]` in order, stopping at
      the first element that fails. */
  function SerializeElements(out: seq<Byte>, items: seq<Data>, i: nat): (r: (Result<()>, seq<Byte>))
    requires i <= |items|
    requires forall j :: 0 <= j < |items| ==> NoTuple(items[j])
    ensures out <= r.1
    ensures r.0.Ok? <==> forall j :: i <= j < |items| ==> Supported(items[j])
    ensures r.0.Err? ==> r.0.error == TypeNotSupported || r.0.error == Syntax
    decreases items, 0, |items| - i
  {
    if i == |items| then (Ok(()), out)
    else
      var first := Serialize(out, items[i]);
      if first.0.Err? then first else SerializeElements(first.1, items, i + 1)
  }

  /** `to_binary`: the container of a fresh serializer after serializing `d`,
      or the error. */
  function ToBinary(d: Data): (r: Result<seq<Byte>>)
    requires NoTuple(d)
    ensures r.Ok? <==> Supported(d)
    ensures r.Ok? ==> r.value == Serialize([], d).1
    ensures r.Err? ==> r.error == Serialize([], d).0.error
  {
    var written := Serialize([], d);
    if written.0.Err? then Err(written.0.error) else Ok(written.1)
  }

  // ---------------------------------------------------------------------
  // What a value is written as
  // ---------------------------------------------------------------------

  /** The bytes serializing `d` appends to any container. */
  function Encoded(d: Data): seq<Byte>
    requires NoTuple(d)
  {
    Serialize([], d).1
  }

  /** The encodings of `items[i..]`, one after another. */
  function EncodedFrom(items: seq<Data>, i: nat): seq<Byte>
    requires i <= |items|
    requires forall j :: 0 <= j < |items| ==> NoTuple(items[j])
    decreases |items| - i
  {
    if i == |items| then [] else Encoded(items[i]) + EncodedFrom(items, i + 1)
  }

  /** Serializing only appends, and what it appends does not depend on what
      the container already holds. */
  lemma {:induction false} SerializeAppends(out: seq<Byte>, d: Data)
    requires NoTuple(d)
    ensures Serialize(out, d) == (Serialize([], d).0, out + Encoded(d))
    decreases d, 2
  {
    assert out + [] == out;
    match d
    case Int(w, n) =>
      NumberAppends(out, n);
    case Str(s) =>
      BytesAppend(out, Utf8(s));
    case Bytes(b) =>
      BytesAppend(out, b);
    case OptSome(x) =>
      SerializeAppends(out, x);
    case Seq(items) =>
      SeqAppends(out, items);
    case _ =>
  }

  lemma NumberAppends(out: seq<Byte>, n: int)
    ensures SerNumber(out, n) == out + SerNumber([], n)
  {
  }

  lemma BytesAppend(out: seq<Byte>, b: seq<Byte>)
    ensures SerBytes(out, b) == out + SerBytes([], b)
  {
  }

  /** An integer the encoder accepts is written by `ser_number`. */
  lemma EncodedInt(w: IntType, n: int)
    requires !(w == U64 && n > I64_MAX)
    ensures Encoded(Int(w, n)) == SerNumber([], n)
  {
  }

  /** A string is written by `ser_string`. */
  lemma EncodedStr(s: string)
    ensures Encoded(Str(s)) == SerString([], s)
  {
  }

  /** `ser_number` writes `i`, the decimal text, `e`, and nothing else. */
  lemma NumberLayout(n: int)
    ensures SerNumber([], n) == [INT_TAG] + Decimal(n) + [END_TAG]
  {
    assert PushBytes([], [INT_TAG]) == [INT_TAG];
  }

  /** `ser_bytes` writes the length, `:`, the bytes, and nothing else. */
  lemma BytesLayout(b: seq<Byte>)
    ensures SerBytes([], b) == Digits(|b|) + [COLON] + b
  {
    var ds := Digits(|b|);
    assert [] + ds == ds;
    assert SerBytes([], b) == ds + [COLON] + b;
  }

  /** An ASCII string is written as its length, `:`, and one byte per char,
      which read back one char per byte give the string again. */
  lemma StringLayout(s: string)
    requires IsAscii(s)
    ensures SerString([], s) == Digits(|Utf8(s)|) + [COLON] + Utf8(s)
    ensures |Utf8(s)| == |s| && Latin1(Utf8(s)) == s
  {
    BytesLayout(Utf8(s));
    AsciiLatin1Utf8(s);
  }

  lemma {:induction false} SeqAppends(out: seq<Byte>, items: seq<Data>)
    requires NoTuple(Seq(items))
    ensures Serialize(out, Seq(items)) == (Serialize([], Seq(items)).0, out + Encoded(Seq(items)))
    decreases Seq(items), 1
  {
    var a := SerializeElements(out + [LIST_TAG], items, 0);
    var b := SerializeElements([LIST_TAG], items, 0);
    ListCase(out, items);
    ListCase([], items);
    assert [] + [LIST_TAG] == [LIST_TAG];
    ElementsAppend(out + [LIST_TAG], items, 0);
    ElementsAppend([LIST_TAG], items, 0);
    assert out + [LIST_TAG] + SerializeElements([], items, 0).1 == out + ([LIST_TAG] + SerializeElements([], items, 0).1);
    CloseAppends(out, a, b);
  }

  /** `Serialize` of a list: `l`, the elements, then closing. */
  lemma ListCase(out: seq<Byte>, items: seq<Data>)
    requires NoTuple(Seq(items))
    ensures Serialize(out, Seq(items)) == Close(SerializeElements(out + [LIST_TAG], items, 0))
  {
  }

  /** What `Serialize` returns for a list once its elements are written:
      the first failure, or the `e` that `end` appends. */
  function Close(elems: (Result<()>, seq<Byte>)): (Result<()>, seq<Byte>) {
    if elems.0.Err? then elems else End(elems.1)
  }

  lemma CloseAppends(out: seq<Byte>, a: (Result<()>, seq<Byte>), b: (Result<()>, seq<Byte>))
    requires a.0 == b.0 && a.1 == out + b.1
    ensures Close(a) == (Close(b).0, out + Close(b).1)
  {
    assert out + b.1 + [END_TAG] == out + (b.1 + [END_TAG]);
  }

  lemma {:induction false} ElementsAppend(out: seq<Byte>, items: seq<Data>, i: nat)
    requires i <= |items|
    requires forall j :: 0 <= j < |items| ==> NoTuple(items[j])
    ensures SerializeElements(out, items, i).0 == SerializeElements([], items, i).0
    ensures SerializeElements(out, items, i).1 == out + SerializeElements([], items, i).1
    ensures SerializeElements(out, items, i).0.Ok? ==> SerializeElements([], items, i).1 == EncodedFrom(items, i)
    decreases Seq(items), 0, |items| - i
  {
    if i < |items| {
      var d := items[i];
      SerializeAppends(out, d);
      SerializeAppends([], d);
      if Serialize([], d).0.Ok? {
        ElementStep(out, items, i);
      }
    }
  }

  lemma {:induction false} ElementStep(out: seq<Byte>, items: seq<Data>, i: nat)
    requires i < |items|
    requires forall j :: 0 <= j < |items| ==> NoTuple(items[j])
    requires Serialize(out, items[i]).0.Ok? && Serialize(out, items[i]).1 == out + Encoded(items[i])
    requires Serialize([], items[i]).0.Ok?
    ensures SerializeElements(out, items, i).0 == SerializeElements([], items, i).0
    ensures SerializeElements(out, items, i).1 == out + SerializeElements([], items, i).1
    ensures SerializeElements(out, items, i).0.Ok? ==> SerializeElements([], items, i).1 == EncodedFrom(items, i)
    decreases Seq(items), 0, |items| - i, 0
  {
    var e := Encoded(items[i]);
    var tail := SerializeElements([], items, i + 1);
    var viaOut := SerializeElements(out + e, items, i + 1);
    var viaEmpty := SerializeElements(e, items, i + 1);
    assert SerializeElements(out, items, i) == viaOut;
    assert SerializeElements([], items, i) == viaEmpty;
    ElementsAppend(out + e, items, i + 1);
    ElementsAppend(e, items, i + 1);
    assert viaOut == (tail.0, out + e + tail.1);
    assert viaEmpty == (tail.0, e + tail.1);
    assert out + e + tail.1 == out + (e + tail.1);
    if tail.0.Ok? {
      ElementsAppend([], items, i + 1);
      assert EncodedFrom(items, i) == e + EncodedFrom(items, i + 1);
    }
  }

  /** A list is written as `l`, its elements' encodings in order, then `e`. */
  lemma SeqLayout(items: seq<Data>)
    requires NoTuple(Seq(items)) && Supported(Seq(items))
    ensures Encoded(Seq(items)) == [LIST_TAG] + EncodedFrom(items, 0) + [END_TAG]
  {
    ListCase([], items);
    assert [] + [LIST_TAG] == [LIST_TAG];
    ElementsAppend([LIST_TAG], items, 0);
  }

  /** `serialize_some` writes exactly what the wrapped value writes;
      `serialize_none` writes nothing. */
  lemma OptionLayout(x: Data)
    requires NoTuple(x)
    ensures Serialize([], OptSome(x)) == Serialize([], x)
    ensures Encoded(OptNone) == []
  {
  }

  /** The first byte of every token the encoder writes tells its kind: `i`
      for an integer, a digit for a string, `l` for a list; never `e`. */
  lemma {:induction false} FirstByte(d: Data)
    requires NoTuple(d) && Supported(d) && (d.Int? || d.Str? || d.Bytes? || d.Seq?)
    ensures |Encoded(d)| > 0
    ensures d.Int? ==> Encoded(d)[0] == INT_TAG
    ensures d.Str? || d.Bytes? ==> IsDigit(Encoded(d)[0])
    ensures d.Seq? ==> Encoded(d)[0] == LIST_TAG
    ensures Encoded(d)[0] != END_TAG
  {
    match d
    case Int(_, n) =>
      NumberLayout(n);
    case Str(s) =>
      BytesLayout(Utf8(s));
    case Bytes(b) =>
      BytesLayout(b);
    case Seq(items) =>
      SeqLayout(items);
  }
}
