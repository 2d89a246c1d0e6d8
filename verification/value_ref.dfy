/** `ValueRef`: the value tree whose strings and byte strings borrow from
    the input. Its visitor takes borrowed payloads, its derived order ranks
    `Bytes` before `List` and `Dictionary`, and it can be serialized. */
module ValueRefs {
  import opened Ascii
  import opened Errors
  import opened Ints
  import opened Ordering
  import opened Visit
  import opened Values
  import DataModel
  import Ser
  import De
  import RoundTrip

  /** `ValueRef<'a>`: a borrowed `&str` or `&[u8]` holds the same contents as
      the owned payload of `Value`. */
  type ValueRef = Value

  /** The `ValueRef` visitor: `visit_i64`, `visit_borrowed_str` and
      `visit_borrowed_bytes` wrap their argument unchanged, sequences and
      maps are collected as for `Value`, and every other call is rejected —
      owned strings and byte buffers included. */
  method VisitValueRef(ev: Event) returns (r: Result<ValueRef>)
    requires WellTypedEvent(ev)
    ensures r.Ok? ==> Accepts(ValueRefEnum, ev)
    ensures !Accepts(ValueRefEnum, ev) ==> r == Err(INVALID_TYPE)
    ensures ev.Signed? ==> r == Ok(Number(ev.n))
    ensures ev.BorrowedStr? ==> r == Ok(String(ev.s))
    ensures ev.BorrowedBytes? ==> r == Ok(Bytes(ev.b))
    ensures ev.SeqOf? ==> (r.Ok? <==> EndsCleanly(ev.elements))
    ensures ev.SeqOf? && r.Ok? ==> r.value == List(Read(ev.elements))
    ensures ev.MapOf? ==> (r.Ok? <==> EndsCleanly(ev.pairs))
    ensures ev.MapOf? && r.Ok? ==>
      r.value.Dictionary? && forall k :: Dict.Get(r.value.entries, k) == Dict.LastValue(Read(ev.pairs), k)
    ensures r.Ok? && InputsValid(ev) ==> Valid(r.value)
  {
    match ev
    case Signed(n) => return Ok(Number(n));
    case BorrowedStr(s) => return Ok(String(s));
    case BorrowedBytes(b) => return Ok(Bytes(b));
    case SeqOf(elements) => r := VisitSeq(elements);
    case MapOf(pairs) => r := VisitMap(pairs);
    case _ => return Err(INVALID_TYPE);
  }

  /** The owned and the borrowed visitor accept exactly the same calls
      except for strings and byte strings, which each takes in one form
      only. */
  lemma VisitorsDiffer(ev: Event)
    ensures Accepts(ValueEnum, ev) != Accepts(ValueRefEnum, ev) <==>
      ev.OwnedString? || ev.ByteBuf? || ev.BorrowedStr? || ev.BorrowedBytes?
  {
  }

  /** The two declaration orders: a number sorts before every other variant
      and a string before every variant but a number in both enums, while
      `Bytes` sorts after lists and dictionaries as a `Value` and before
      them as a `ValueRef`. */
  lemma DeclarationOrders(a: Value, b: Value)
    ensures a.Number? && !b.Number? ==> Cmp(ValueEnum, a, b) == Less && Cmp(ValueRefEnum, a, b) == Less
    ensures a.String? && !b.Number? && !b.String? ==>
      Cmp(ValueEnum, a, b) == Less && Cmp(ValueRefEnum, a, b) == Less
    ensures a.List? && b.Dictionary? ==> Cmp(ValueEnum, a, b) == Less && Cmp(ValueRefEnum, a, b) == Less
    ensures a.Bytes? && (b.List? || b.Dictionary?) ==>
      Cmp(ValueEnum, a, b) == Greater && Cmp(ValueRefEnum, a, b) == Less
  {
  }

  // ---------------------------------------------------------------------
  // Serialization
  // ---------------------------------------------------------------------

  /** No dictionary anywhere inside: a dictionary is serialized through
      `serialize_map`, which is unimplemented. */
  predicate NoDictionary(v: ValueRef) {
    match v
    case List(xs) => forall i :: 0 <= i < |xs| ==> NoDictionary(xs[i])
    case Dictionary(_) => false
    case _ => true
  }

  /** The serialization call each variant makes: `serialize_i64`,
      `serialize_str`, `serialize_bytes`, or a sequence of the elements. */
  function ToData(v: ValueRef): DataModel.Data
    requires NoDictionary(v)
  {
    match v
    case Number(n) => DataModel.Int(I64, n)
    case String(s) => DataModel.Str(s)
    case Bytes(b) => DataModel.Bytes(b)
    case List(xs) => DataModel.Seq(seq(|xs|, i requires 0 <= i < |xs| => ToData(xs[i])))
  }

  /** Every call a `ValueRef` without a dictionary makes is one the encoder
      implements and accepts. */
  lemma {:induction false} RefEncodable(v: ValueRef)
    requires NoDictionary(v)
    ensures DataModel.NoTuple(ToData(v)) && Ser.Supported(ToData(v))
  {
    if v.List? {
      var items := ToData(v).items;
      forall i | 0 <= i < |items|
        ensures DataModel.NoTuple(items[i]) && Ser.Supported(items[i])
      {
        RefEncodable(v.items[i]);
      }
    }
  }

  /** `to_binary` of a `ValueRef`: it never fails; a number is written as
      `i<decimal>e`, a string as its UTF-8 length, `:` and its UTF-8 bytes,
      and a byte string as its length, `:` and the bytes. */
  function ToBinaryRef(v: ValueRef): (r: Result<seq<Byte>>)
    requires NoDictionary(v)
    ensures r.Ok?
    ensures v.Number? ==> r.value == [INT_TAG] + Decimal(v.n) + [END_TAG]
    ensures v.String? ==> r.value == Digits(|Utf8(v.s)|) + [COLON] + Utf8(v.s)
    ensures v.Bytes? ==> r.value == Digits(|v.bytes|) + [COLON] + v.bytes
  {
    RefEncodable(v);
    match v
    case Number(n) => Ser.NumberLayout(n); Ser.ToBinary(ToData(v))
    case String(s) => Ser.BytesLayout(Utf8(s)); Ser.ToBinary(ToData(v))
    case Bytes(b) => Ser.BytesLayout(b); Ser.ToBinary(ToData(v))
    case List(_) => Ser.ToBinary(ToData(v))
  }

  /** The encodings of `xs[i..]`, one after another. */
  function EncodeAll(xs: seq<ValueRef>, i: nat): seq<Byte>
    requires i <= |xs| && forall j :: 0 <= j < |xs| ==> NoDictionary(xs[j])
    decreases |xs| - i
  {
    if i == |xs| then [] else ToBinaryRef(xs[i]).value + EncodeAll(xs, i + 1)
  }

  /** A list is written as `l`, the encodings of its elements in order, then
      `e`. */
  lemma ListLayout(xs: seq<ValueRef>)
    requires NoDictionary(List(xs))
    ensures ToBinaryRef(List(xs)).value == [LIST_TAG] + EncodeAll(xs, 0) + [END_TAG]
  {
    var items := ToData(List(xs)).items;
    RefEncodable(List(xs));
    Ser.SeqLayout(items);
    ElementsEncoded(xs, items, 0);
  }

  lemma {:induction false} ElementsEncoded(xs: seq<ValueRef>, items: seq<DataModel.Data>, i: nat)
    requires NoDictionary(List(xs)) && items == ToData(List(xs)).items && i <= |xs|
    requires forall j :: 0 <= j < |items| ==> DataModel.NoTuple(items[j])
    ensures Ser.EncodedFrom(items, i) == EncodeAll(xs, i)
    decreases |xs| - i
  {
    if i < |xs| {
      ElementsEncoded(xs, items, i + 1);
    }
  }

  /** What `to_binary` writes for a `ValueRef` of numbers, ASCII strings
      and lists of one element type, `from_binary` reads back into the same
      serialization calls. */
  lemma RefRoundTrip(v: ValueRef, shape: DataModel.Shape)
    requires NoDictionary(v)
    requires DataModel.HasShape(ToData(v), shape) && RoundTrip.Canonical(ToData(v))
    ensures De.FromBinary(shape, ToBinaryRef(v).value) == Ok(ToData(v))
  {
    RoundTrip.FromBinaryToBinary(shape, ToData(v), []);
    assert ToBinaryRef(v).value + [] == ToBinaryRef(v).value;
  }
}
