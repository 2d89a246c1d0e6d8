/** The dynamic bencode value `Value`, its derived total order, and the
    visitor that builds it. `ValueRef` has the same five variants with
    borrowed payloads; it shares this tree and differs in the declaration
    order of its variants and in the visitor methods it implements. */
module Values {
  import opened Errors
  import opened Ordering
  import opened Dict
  import opened Ascii
  import opened Ints
  import opened Visit

  /** A bencode value: an `i64` number, a string, a list, a dictionary with
      string keys (a `BTreeMap`), or raw bytes. */
  datatype Value =
    | Number(n: int)
    | String(s: string)
    | List(items: seq<Value>)
    | Dictionary(entries: Dict<Value>)
    | Bytes(bytes: seq<Byte>)

  /** Which of the two enums: `Value` declares Number, String, List,
      Dictionary, Bytes; `ValueRef` declares Number, String, Bytes, List,
      Dictionary. */
  datatype Enum = ValueEnum | ValueRefEnum

  /** The position of the variant in its enum's declaration, which the
      derived order compares first. */
  function Rank(e: Enum, v: Value): nat {
    match v
    case Number(_) => 0
    case String(_) => 1
    case List(_) => if e == ValueEnum then 2 else 3
    case Dictionary(_) => if e == ValueEnum then 3 else 4
    case Bytes(_) => if e == ValueEnum then 4 else 2
  }

  /** Two values have the same rank exactly when they are the same variant. */
  lemma RankIdentifiesVariant(e: Enum, a: Value, b: Value)
    ensures Rank(e, a) == Rank(e, b) <==>
      (a.Number? && b.Number?) || (a.String? && b.String?) || (a.List? && b.List?) ||
      (a.Dictionary? && b.Dictionary?) || (a.Bytes? && b.Bytes?)
  {
  }

  function ByteCode(b: Byte): int {
    b
  }

  lemma ByteCodeInjective()
    ensures Injective(ByteCode)
  {
  }

  /** The derived `Ord::cmp`: the variant's rank first, then the payload —
      numbers by value, strings and bytes lexicographically, lists element by
      element, dictionaries entry by entry in key order. */
  function Cmp(e: Enum, a: Value, b: Value): Ordering
    decreases a, 1
  {
    if Rank(e, a) != Rank(e, b) then CmpInt(Rank(e, a), Rank(e, b))
    else
      match a
      case Number(x) => CmpInt(x, b.n)
      case String(x) => CmpStr(x, b.s)
      case Bytes(x) => Lex(x, b.bytes, ByteCode)
      case List(xs) => CmpItems(e, xs, b.items)
      case Dictionary(xs) => CmpEntries(e, xs, b.entries)
  }

  /** `Vec<Value>` order: the first unequal element decides, and a list that
      runs out first is smaller. */
  function CmpItems(e: Enum, xs: seq<Value>, ys: seq<Value>): Ordering
    decreases xs, 0
  {
    if |xs| == 0 then (if |ys| == 0 then Equal else Less)
    else if |ys| == 0 then Greater
    else
      var c := Cmp(e, xs[0], ys[0]);
      if c != Equal then c else CmpItems(e, xs[1..], ys[1..])
  }

  /** A `(key, value)` pair of a map's iterator: key first, then value. */
  function CmpEntry(e: Enum, x: Entry<Value>, y: Entry<Value>): Ordering
    decreases x, 0
  {
    var c := CmpStr(x.key, y.key);
    if c != Equal then c else Cmp(e, x.value, y.value)
  }

  /** `BTreeMap` order: the entries compared in iteration order. */
  function CmpEntries(e: Enum, xs: Dict<Value>, ys: Dict<Value>): Ordering
    decreases xs, 0
  {
    if |xs| == 0 then (if |ys| == 0 then Equal else Less)
    else if |ys| == 0 then Greater
    else
      var c := CmpEntry(e, xs[0], ys[0]);
      if c != Equal then c else CmpEntries(e, xs[1..], ys[1..])
  }

  // ---------------------------------------------------------------------
  // The derived order is a total order
  // ---------------------------------------------------------------------

  /** Only equal values compare `Equal`. */
  lemma {:induction false} CmpEqual(e: Enum, a: Value, b: Value)
    ensures Cmp(e, a, b) == Equal <==> a == b
    decreases a, 1
  {
    if Rank(e, a) == Rank(e, b) {
      match a
      case Number(_) =>
      case String(x) =>
        CharCodeInjective();
        LexEqual(x, b.s, CharCode);
      case Bytes(x) =>
        ByteCodeInjective();
        LexEqual(x, b.bytes, ByteCode);
      case List(xs) =>
        ItemsEqual(e, xs, b.items);
      case Dictionary(xs) =>
        EntriesEqual(e, xs, b.entries);
    }
  }

  lemma {:induction false} ItemsEqual(e: Enum, xs: seq<Value>, ys: seq<Value>)
    ensures CmpItems(e, xs, ys) == Equal <==> xs == ys
    decreases xs, 0
  {
    if |xs| > 0 && |ys| > 0 {
      CmpEqual(e, xs[0], ys[0]);
      ItemsEqual(e, xs[1..], ys[1..]);
      assert xs == [xs[0]] + xs[1..] && ys == [ys[0]] + ys[1..];
    }
  }

  lemma {:induction false} EntryEqual(e: Enum, x: Entry<Value>, y: Entry<Value>)
    ensures CmpEntry(e, x, y) == Equal <==> x == y
    decreases x, 0
  {
    CharCodeInjective();
    LexEqual(x.key, y.key, CharCode);
    CmpEqual(e, x.value, y.value);
  }

  lemma {:induction false} EntriesEqual(e: Enum, xs: Dict<Value>, ys: Dict<Value>)
    ensures CmpEntries(e, xs, ys) == Equal <==> xs == ys
    decreases xs, 0
  {
    if |xs| > 0 && |ys| > 0 {
      EntryEqual(e, xs[0], ys[0]);
      EntriesEqual(e, xs[1..], ys[1..]);
      assert xs == [xs[0]] + xs[1..] && ys == [ys[0]] + ys[1..];
    }
  }

  /** Swapping the operands reverses the outcome. */
  lemma {:induction false} CmpReverse(e: Enum, a: Value, b: Value)
    ensures Cmp(e, b, a) == Cmp(e, a, b).Reverse()
    decreases a, 1
  {
    if Rank(e, a) == Rank(e, b) {
      match a
      case Number(_) =>
      case String(x) =>
        LexReverse(x, b.s, CharCode);
      case Bytes(x) =>
        LexReverse(x, b.bytes, ByteCode);
      case List(xs) =>
        ItemsReverse(e, xs, b.items);
      case Dictionary(xs) =>
        EntriesReverse(e, xs, b.entries);
    }
  }

  lemma {:induction false} ItemsReverse(e: Enum, xs: seq<Value>, ys: seq<Value>)
    ensures CmpItems(e, ys, xs) == CmpItems(e, xs, ys).Reverse()
    decreases xs, 0
  {
    if |xs| > 0 && |ys| > 0 {
      CmpReverse(e, xs[0], ys[0]);
      ItemsReverse(e, xs[1..], ys[1..]);
    }
  }

  lemma {:induction false} EntryReverse(e: Enum, x: Entry<Value>, y: Entry<Value>)
    ensures CmpEntry(e, y, x) == CmpEntry(e, x, y).Reverse()
    decreases x, 0
  {
    LexReverse(x.key, y.key, CharCode);
    CmpReverse(e, x.value, y.value);
  }

  lemma {:induction false} EntriesReverse(e: Enum, xs: Dict<Value>, ys: Dict<Value>)
    ensures CmpEntries(e, ys, xs) == CmpEntries(e, xs, ys).Reverse()
    decreases xs, 0
  {
    if |xs| > 0 && |ys| > 0 {
      EntryReverse(e, xs[0], ys[0]);
      EntriesReverse(e, xs[1..], ys[1..]);
    }
  }

  /** `Less` is transitive. */
  lemma {:induction false} CmpTransitive(e: Enum, a: Value, b: Value, c: Value)
    requires Cmp(e, a, b) == Less && Cmp(e, b, c) == Less
    ensures Cmp(e, a, c) == Less
    decreases a, 1
  {
    if Rank(e, a) == Rank(e, b) == Rank(e, c) {
      match a
      case Number(_) =>
      case String(x) =>
        StrLessTransitive(x, b.s, c.s);
      case Bytes(x) =>
        LexTransitive(x, b.bytes, c.bytes, ByteCode);
      case List(xs) =>
        ItemsTransitive(e, xs, b.items, c.items);
      case Dictionary(xs) =>
        EntriesTransitive(e, xs, b.entries, c.entries);
    }
  }

  lemma {:induction false} ItemsTransitive(e: Enum, xs: seq<Value>, ys: seq<Value>, zs: seq<Value>)
    requires CmpItems(e, xs, ys) == Less && CmpItems(e, ys, zs) == Less
    ensures CmpItems(e, xs, zs) == Less
    decreases xs, 0
  {
    if |xs| > 0 {
      var c1 := Cmp(e, xs[0], ys[0]);
      var c2 := Cmp(e, ys[0], zs[0]);
      CmpEqual(e, xs[0], ys[0]);
      CmpEqual(e, ys[0], zs[0]);
      CmpEqual(e, xs[0], zs[0]);
      if c1 == Less && c2 == Less {
        CmpTransitive(e, xs[0], ys[0], zs[0]);
      } else if c1 == Equal && c2 == Equal {
        ItemsTransitive(e, xs[1..], ys[1..], zs[1..]);
      }
    }
  }

  lemma {:induction false} EntryTransitive(e: Enum, x: Entry<Value>, y: Entry<Value>, z: Entry<Value>)
    requires CmpEntry(e, x, y) == Less && CmpEntry(e, y, z) == Less
    ensures CmpEntry(e, x, z) == Less
    decreases x, 0
  {
    CharCodeInjective();
    LexEqual(x.key, y.key, CharCode);
    LexEqual(y.key, z.key, CharCode);
    LexEqual(x.key, z.key, CharCode);
    if CmpStr(x.key, y.key) == Less && CmpStr(y.key, z.key) == Less {
      StrLessTransitive(x.key, y.key, z.key);
    } else if x.key == y.key == z.key {
      CmpTransitive(e, x.value, y.value, z.value);
    }
  }

  lemma {:induction false} EntriesTransitive(e: Enum, xs: Dict<Value>, ys: Dict<Value>, zs: Dict<Value>)
    requires CmpEntries(e, xs, ys) == Less && CmpEntries(e, ys, zs) == Less
    ensures CmpEntries(e, xs, zs) == Less
    decreases xs, 0
  {
    if |xs| > 0 {
      var c1 := CmpEntry(e, xs[0], ys[0]);
      var c2 := CmpEntry(e, ys[0], zs[0]);
      EntryEqual(e, xs[0], ys[0]);
      EntryEqual(e, ys[0], zs[0]);
      EntryEqual(e, xs[0], zs[0]);
      if c1 == Less && c2 == Less {
        EntryTransitive(e, xs[0], ys[0], zs[0]);
      } else if c1 == Equal && c2 == Equal {
        EntriesTransitive(e, xs[1..], ys[1..], zs[1..]);
      }
    }
  }

  // ---------------------------------------------------------------------
  // Building a value: the visitor
  // ---------------------------------------------------------------------

  /** What every value the visitors build satisfies: numbers are `i64`s and
      dictionaries are key-sorted, all the way down. */
  predicate Valid(v: Value) {
    match v
    case Number(n) => IsI64(n)
    case List(xs) => forall i :: 0 <= i < |xs| ==> Valid(xs[i])
    case Dictionary(xs) => Sorted(xs) && forall i :: 0 <= i < |xs| ==> Valid(xs[i].value)
    case _ => true
  }

  /** The visitor call a deserializer makes. serde's default visitor methods
      forward `visit_i8`, `visit_i16` and `visit_i32` to `visit_i64`,
      `visit_u8`, `visit_u16` and `visit_u32` to `visit_u64`, `visit_borrowed_str` and `visit_string` to
      `visit_str`, and `visit_borrowed_bytes` and `visit_byte_buf` to
      `visit_bytes`; the defaults of `visit_u64`, `visit_str`, `visit_bytes`
      and of every other method reject the input as being of an invalid
      type. */
  datatype Event =
    | Signed(n: int)
    | Unsigned(n: int)
    | TransientStr(s: string)
    | BorrowedStr(s: string)
    | OwnedString(s: string)
    | TransientBytes(b: seq<Byte>)
    | BorrowedBytes(b: seq<Byte>)
    | ByteBuf(b: seq<Byte>)
    | SeqOf(elements: seq<Step<Value>>)
    | MapOf(pairs: seq<Step<Entry<Value>>>)
    | Other

  /** The argument of a visitor call has its Rust type: `i64` or `u64`. */
  predicate WellTypedEvent(ev: Event) {
    (ev.Signed? ==> IsI64(ev.n)) && (ev.Unsigned? ==> U64.Fits(ev.n))
  }

  /** The calls the visitor of enum `e` turns into a value: both take signed
      integers, sequences and maps; `Value` takes owned strings and byte
      buffers, `ValueRef` borrowed ones. */
  predicate Accepts(e: Enum, ev: Event) {
    match ev
    case Signed(_) => true
    case SeqOf(_) => true
    case MapOf(_) => true
    case OwnedString(_) => e == ValueEnum
    case ByteBuf(_) => e == ValueEnum
    case BorrowedStr(_) => e == ValueRefEnum
    case BorrowedBytes(_) => e == ValueRefEnum
    case _ => false
  }

  /** The values the access of a sequence or map call yields are valid. */
  predicate InputsValid(ev: Event) {
    (ev.SeqOf? ==> forall i :: 0 <= i < |Read(ev.elements)| ==> Valid(Read(ev.elements)[i])) &&
    (ev.MapOf? ==> forall i :: 0 <= i < |Read(ev.pairs)| ==> Valid(Read(ev.pairs)[i].value))
  }

  /** A dictionary built from valid values is valid. */
  lemma DictionaryValid(es: seq<Entry<Value>>)
    requires forall i :: 0 <= i < |es| ==> Valid(es[i].value)
    ensures Valid(Dictionary(FromEntries(es)))
  {
    FromEntriesKeepsAll(es, Valid);
  }

  /** The error serde's `invalid_type` reports through the crate's `custom`. */
  const INVALID_TYPE: Error := Message("invalid type, expected valid barcode")

  /** `visit_seq`: a `List` of the elements in the order produced, or the
      first element error. */
  method VisitSeq(elements: seq<Step<Value>>) returns (r: Result<Value>)
    ensures r.Ok? <==> EndsCleanly(elements)
    ensures r.Ok? ==> r.value.List? && r.value.items == Read(elements)
    ensures r.Err? ==> r.error == elements[Run(elements)].error
    ensures r.Ok? && (forall i :: 0 <= i < |Read(elements)| ==> Valid(Read(elements)[i])) ==> Valid(r.value)
  {
    var vec :- CollectSeq(elements);
    return Ok(List(vec));
  }

  /** `visit_map`: a `Dictionary` of every key read with the value read
      last for it, or the first entry error. */
  method VisitMap(pairs: seq<Step<Entry<Value>>>) returns (r: Result<Value>)
    ensures r.Ok? <==> EndsCleanly(pairs)
    ensures r.Ok? ==> r.value.Dictionary? && Keys(r.value.entries) == KeysRead(Read(pairs))
    ensures r.Ok? ==> forall k :: Get(r.value.entries, k) == LastValue(Read(pairs), k)
    ensures r.Err? ==> r.error == pairs[Run(pairs)].error
    ensures r.Ok? && (forall i :: 0 <= i < |Read(pairs)| ==> Valid(Read(pairs)[i].value)) ==> Valid(r.value)
  {
    var bmap :- CollectMap(pairs);
    if forall i :: 0 <= i < |Read(pairs)| ==> Valid(Read(pairs)[i].value) {
      DictionaryValid(Read(pairs));
    }
    return Ok(Dictionary(bmap));
  }

  /** The `Value` visitor: `visit_i64`, `visit_string` and `visit_byte_buf`
      wrap their argument unchanged, sequences and maps are collected, and
      every other call is rejected. */
  method VisitValue(ev: Event) returns (r: Result<Value>)
    requires WellTypedEvent(ev)
    ensures r.Ok? ==> Accepts(ValueEnum, ev)
    ensures !Accepts(ValueEnum, ev) ==> r == Err(INVALID_TYPE)
    ensures ev.Signed? ==> r == Ok(Number(ev.n))
    ensures ev.OwnedString? ==> r == Ok(String(ev.s))
    ensures ev.ByteBuf? ==> r == Ok(Bytes(ev.b))
    ensures ev.SeqOf? ==> (r.Ok? <==> EndsCleanly(ev.elements))
    ensures ev.SeqOf? && r.Ok? ==> r.value == List(Read(ev.elements))
    ensures ev.MapOf? ==> (r.Ok? <==> EndsCleanly(ev.pairs))
    ensures ev.MapOf? && r.Ok? ==>
      r.value.Dictionary? && forall k :: Get(r.value.entries, k) == LastValue(Read(ev.pairs), k)
    ensures r.Ok? && InputsValid(ev) ==> Valid(r.value)
  {
    match ev
    case Signed(n) => return Ok(Number(n));
    case OwnedString(s) => return Ok(String(s));
    case ByteBuf(b) => return Ok(Bytes(b));
    case SeqOf(elements) => r := VisitSeq(elements);
    case MapOf(pairs) => r := VisitMap(pairs);
    case _ => return Err(INVALID_TYPE);
  }
}
