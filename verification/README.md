# serde_bencode, modelled in Dafny

A model of the core of `serde_bencode`, a Rust bencode codec built on serde,
with proofs about it. The decoder reads one bencoded token from a byte
buffer through a bounds-checked read head:

- `i<decimal>e` is an integer;
- `<length>:<bytes>` is a string;
- `l…e` is a list, read as a `Vec` or as a tuple.

The encoder appends tokens to a growing byte container. `Value` and
`ValueRef` are the dynamic value trees, and the project also models their
derived orders and their visitors.

The modules follow the crate's files:

| module | file | what it holds |
|---|---|---|
| `Ascii`, `Ints`, `Errors` | | bytes, digits and decimal spellings; `i64` wrap-around and the target widths; the crate's `Error` and `Result` |
| `Stream`, `ReadStream` | `src/stream.rs`, `src/stream/read.rs` | the two read heads, as values |
| `DataModel` | | what serde asks for (`Shape`) and the values it moves (`Data`) |
| `De` | `src/de.rs` | the lexer, `parse_numeric`, `parse_string`, `deserialize_string`/`seq`/`tuple`, the list access and `from_binary` |
| `Ser` | `src/ser.rs` | `to_binary`, the scalar `serialize_*`, options and lists |
| `RoundTrip`, `TupleRead` | | decoding what the encoder wrote; reading a list as a tuple |
| `Ordering`, `Dict`, `Visit` | | lexicographic order, the `BTreeMap` as a key-sorted association list, and the visitors' collection loops |
| `Values`, `ValueRefs` | `src/value.rs`, `src/value_ref.rs` | the two enums, their derived `Ord`, their visitors, and `ValueRef`'s `Serialize` |
| `Vectors` | | the crate's own test inputs, worked through the model |

**The generic serde protocol.** A target type becomes a `Shape`:

- an integer width;
- `String`;
- `Vec<T>`;
- a tuple of shapes.

A value the serializer is handed becomes `Data`. `Decode` dispatches on the
shape the way serde's derived `Deserialize` picks a `deserialize_*` method.

**Numbers.** The lexer accumulates in `i64` and negates whenever the seed it
took from the first byte is zero. That seed is zero after a `-` and also
after a leading `0`, so `i05e` reads as -5. Arithmetic wraps around as in a
release build.

**Strings.** `parse_string` casts the length `as usize` (64-bit). It takes at
most that many bytes, so a short input is cut without an error. It reads each
byte as the char with the same code. A non-ASCII string therefore does not
read back as it was written.

**Lists.** After the visitor is done, `deserialize_seq` insists that the very
next byte is `e`. Reading a three-element list as a pair is therefore
`ExpectedEnd`. The test at `src/de.rs:383-389` expects success on such input.
The model follows the code, and `TupleRead.TupleFromList` proves the outcome;
`Vectors.ThreeWordsAsPair` works it through on that test's own input.

**Errors.** `src/ser.rs` returns `Error::TypeNotSupported` and `Error::Syntax`,
which `src/err.rs` does not declare. The model's `Error` adds both.

## Model

| member | source | states |
|---|---|---|
| Stream.TryPeek | src/stream.rs:16-22 | succeeds exactly when the head is before the end, with the byte under the head; otherwise `Eof` |
| Stream.TryNext | src/stream.rs:24-29 | the byte `try_peek` gives, with the head one further on; `Eof` with no move at the end |
| Stream.Next | src/stream.rs:32-38 | `None` exactly when the buffer is exhausted, and then the stream is unchanged; otherwise the byte under the head and a one-byte move |
| Stream.DrainIsRemaining | src/stream.rs:32-38 | the iterator yields exactly the unconsumed bytes, in order |
| Stream.ExhaustedStaysExhausted | src/stream.rs:16-38 | an exhausted stream keeps answering `None` and never moves |
| ReadStream.TryPeek | src/stream/read.rs:16-22 | as `BinaryStream::try_peek` |
| ReadStream.TryNext | src/stream/read.rs:24-29 | the byte under the head and a one-byte move, or `Eof` |
| ReadStream.TryTake | src/stream/read.rs:31-41 | succeeds exactly when `n` bytes remain, with exactly the next `n` bytes and the head moved by `n`; otherwise `Eof` |
| ReadStream.Next | src/stream/read.rs:44-50 | `None` exactly at the end with the stream unchanged, else the next byte |
| ReadStream.TakeIsRepeatedNext | src/stream/read.rs:24-41 | taking `n` bytes at once succeeds exactly when `n` single reads do, with the same bytes and the same final head |
| ReadStream.AgreesWithBinaryStream | src/stream/read.rs:16-50 | peek, next and the iterator read what `BinaryStream` reads at the same position |
| De.FoldDigits | src/de.rs:35-42 | the digit loop fails only with `ExpectedNumber`, keeps the value an `i64` and never moves the head back |
| De.FoldDigitsValue | src/de.rs:35-42 | the digit loop yields the decimal value of the bytes before the terminator, appended to the accumulator and wrapped to `i64`, with the head past the terminator; a non-digit there is `ExpectedNumber` |
| De.ParseSeqNumber | src/de.rs:24-49 | `Eof` exactly at the end of input; a first byte that is neither `-` nor a digit is `ExpectedNumber`; no other error; the result is an `i64` and the head advances |
| De.ParseSeqNumberMeetsSpec | src/de.rs:24-49 | the lexer's result is the token described on the bytes: it runs to the first terminator, starts with `-` or a digit followed only by digits, and its value is negated after `-` or a leading `0` |
| De.ParseNumeric | src/de.rs:51-60 | `Eof` at the end; `ExpectedNumber` unless the next byte is `i`; after the `i`, the lexer's error, or the lexed number when it fits the requested width and `ExpectedNumber` when it does not |
| De.TakeBytes | src/de.rs:66-70 | `take(n)` returns the next `min(n, remaining)` bytes of the buffer and moves the head past them |
| De.ParseString | src/de.rs:62-71 | `Eof` exactly at the end of input; only `Eof` or `ExpectedNumber` can fail; the head advances |
| De.ParseStringReads | src/de.rs:62-71 | succeeds exactly when the length lexes; gives at most `len as usize` chars, one per following byte with the same code, fewer only when the buffer ends |
| De.DeserializeString | src/de.rs:175-180 | fails exactly when the length before `:` does not lex, with the lexer's error; otherwise a `String` of the bytes after the `:`, as many as the length (cast `as usize`) asks for or as remain, one char per byte, with the head just past them |
| De.NextElement | src/de.rs:325-337 | `Eof` at the end; `None` exactly when the next byte is `e`, without consuming it; an element has the requested shape |
| De.VisitVec | src/de.rs:325-337 | the `Vec` visitor keeps what it already holds, appends elements of the element shape, and stops on an `e` it does not consume |
| De.DeserializeSeq | src/de.rs:232-247 | `Eof` at the end; `ExpectedList` unless the first byte is `l`; a result has the visitor's shape and ends just after an `e` |
| De.Decode | src/de.rs:91-270 | `Eof` at the end of input; a result has the requested shape and the head advances |
| De.DecodeList | src/de.rs:232-247 | a `Vec` is the `l`, the elements the visitor collects, and the `e` it stopped on |
| De.FromBinary | src/de.rs:11-15 | empty input is `Eof`; a result has the requested shape |
| Ser.Serialize | src/ser.rs:65-135 | succeeds exactly when the value has no `bool`, float, `char` or `u64` above `i64::MAX`; it only ever appends; a `bool`, float or `char` is `TypeNotSupported` and a `u64` above `i64::MAX` is `Syntax`, and either writes nothing |
| Ser.SerializeAppends | src/ser.rs:22-24 | what serializing writes does not depend on the container's earlier contents |
| Ser.NumberLayout | src/ser.rs:30-34 | a number is written as `i`, its decimal text, `e` |
| Ser.BytesLayout | src/ser.rs:36-40 | a byte string is written as its decimal length, `:`, the bytes |
| Ser.StringLayout | src/ser.rs:41-43 | an ASCII string is written as its length, `:`, one byte per char, and those bytes read back one char per byte give the string |
| Ser.SerializeElements | src/ser.rs:225-230 | the elements are written in order, only appending; it fails exactly when some remaining element is unsupported |
| Ser.ElementsAppend | src/ser.rs:225-230 | the elements' bytes do not depend on the container, and on success they are the elements' encodings one after another |
| Ser.SeqLayout | src/ser.rs:174-235 | a list is written as `l`, its elements' encodings in order, `e` |
| Ser.OptionLayout | src/ser.rs:125-135 | `Some(x)` writes exactly what `x` writes; `None` writes nothing |
| Ser.FirstByte | src/ser.rs:30-43 | every token starts with a byte that is not `e` (`i`, a digit, or `l`) |
| Ser.ToBinary | src/ser.rs:4-9 | succeeds exactly when the value is supported, with the bytes the serializer wrote, or with its error |
| RoundTrip.CanonicalIsEncodable | src/ser.rs:65-135 | every `i64` integer, ASCII string and list of those is accepted by the encoder |
| RoundTrip.NumberRoundTrip | src/de.rs:51-60 | `parse_numeric` at any width that holds `n` reads the bytes `ser_number` wrote back as `n`, ending just after them |
| RoundTrip.StringRoundTrip | src/de.rs:62-71 | `parse_string` reads a spelled length, `:` and that many bytes back as those bytes, ending just after them |
| RoundTrip.DecodeEncoded | src/de.rs:91-270 | an encoded value anywhere in a buffer decodes, at its own shape, to itself, with the head just past its encoding |
| RoundTrip.FromBinaryToBinary | tests/serde.rs:43-47 | `from_binary` of `to_binary`'s output is the original value, whatever bytes follow |
| TupleRead.TupleFromList | src/de.rs:232-270 | reading an encoded list as an n-tuple succeeds exactly when the list has n elements; a longer list is `ExpectedEnd` and a shorter one the invalid-length error |
| Dict.Insert | src/value.rs:57-61 | `BTreeMap::insert` keeps the keys sorted, maps the key to the new value, leaves every other key alone, and adds only that key |
| Dict.FromEntriesMeaning | src/value.rs:53-64 | the map built from the entries read is key-sorted, holds exactly the keys read, and for each key the value read last |
| Visit.CollectSeq | src/value.rs:40-51 | the loop succeeds exactly when the access ends with `None`, with the elements in order, else with the first error |
| Visit.CollectMap | src/value.rs:53-64 | the loop succeeds exactly when the access ends with `None`, with a sorted map of the keys read and the last value read for each, else with the first error |
| Values.CmpEqual | src/value.rs:6-13 | the derived order says `Equal` exactly for equal values |
| Values.CmpReverse | src/value.rs:6-13 | swapping the operands reverses the derived order |
| Values.CmpTransitive | src/value.rs:6-13 | the derived order's `Less` is transitive |
| Values.RankIdentifiesVariant | src/value.rs:6-13 | two values have the same rank in the declaration order exactly when they are the same variant |
| Values.VisitSeq | src/value.rs:40-51 | a `List` of exactly the elements read, or the first error; valid elements give a valid list |
| Values.VisitMap | src/value.rs:53-64 | a `Dictionary` of the keys read with the last value for each, or the first error; valid values give a valid dictionary |
| Values.VisitValue | src/value.rs:21-65 | accepts exactly signed integers, owned strings, byte buffers, sequences and maps, wrapping each unchanged; anything else is rejected as an invalid type |
| ValueRefs.VisitValueRef | src/value_ref.rs:21-71 | accepts exactly signed integers, borrowed strings and byte strings, sequences and maps; anything else is rejected as an invalid type |
| ValueRefs.VisitorsDiffer | src/value_ref.rs:28-44 | the two visitors differ exactly on owned against borrowed strings and byte strings |
| ValueRefs.DeclarationOrders | src/value_ref.rs:6-13 | numbers and strings sort first in both enums, but `Bytes` sorts after lists and dictionaries as a `Value` and before them as a `ValueRef` |
| ValueRefs.RefEncodable | src/value_ref.rs:82-88 | every call a `ValueRef` without a dictionary makes is one the encoder implements and accepts |
| ValueRefs.ToBinaryRef | src/value_ref.rs:77-90 | `to_binary` of a `ValueRef` never fails; a number is written as `i<decimal>e`, a string as its UTF-8 length and bytes, and a byte string as its length and bytes |
| ValueRefs.ListLayout | src/value_ref.rs:86 | a list is written as `l`, its elements' encodings, `e` |
| ValueRefs.RefRoundTrip | src/value_ref.rs:77-90 | a `ValueRef` of numbers, ASCII strings and uniform lists is read back by `from_binary` as the calls it serialized |
| Vectors.LeadingZeroNegates | src/de.rs:29-46 | `i05e` decodes as the `i64` -5 |
| Vectors.MinusOne | src/de.rs:346-357 | `i-1e` decodes as the `i16` -1 |
| Vectors.Foo | src/de.rs:359-365 | `3:foo` decodes as the string "foo" |
| Vectors.ShortString | src/de.rs:62-71 | `5:ab` decodes as "ab": a length beyond the input cuts the string short |
| Vectors.EmptyList | src/de.rs:367-373 | `le` decodes as the empty `Vec<String>` |
| Vectors.MinusHundredFourteen | tests/serde.rs:44 | `i-114e` decodes as the `i64` -114 |
| Vectors.TwoWordsList | src/de.rs:376-381 | the list of two four-letter words decodes as a `Vec<String>` of them |
| Vectors.TwoWordsPair | tests/serde.rs:48 | the same bytes decode as a pair of `String`s |
| Vectors.ThreeWordsPair | src/de.rs:232-243 | a list of three words read as a pair is `ExpectedEnd` |
| Vectors.SpamEggsList | src/de.rs:376-381 | `l4:spam4:eggse` decodes as the `Vec<String>` ["spam", "eggs"] |
| Vectors.SpamEggsPair | tests/serde.rs:48 | `l4:spam4:eggse` decodes as the pair ("spam", "eggs") |
| Vectors.ThreeWordsAsPair | src/de.rs:383-389 | `l4:spam4:eggs4:lulwe` read as a pair is `ExpectedEnd`, where that test expects ("spam", "eggs") |

## Left out

- The serde trait machinery is not modelled. `Deserialize` and `Serialize` implementations are replaced by `Shape` and `Data`, and only the integer, `String`, `Vec` and tuple targets are decoded.
- The deserializer's `todo!()` and `unimplemented!()` methods panic in the source and are outside the model. These are `any`, `bool`, `str`, `bytes`, `byte_buf`, `option`, `unit`, `map`, `struct`, `enum`, `identifier`, `ignored_any` and the floats and `char`. `deserialize_newtype_struct` is left out as well.
- The serializer's `todo!()` paths are outside the model: unit, newtype, tuple, map and struct serialization.
- Ser.Serialize: requires `NoTuple`, because `serialize_tuple` is `todo!()` and would panic.
- ValueRefs.ToBinaryRef: requires `NoDictionary`, because a dictionary goes to `serialize_map`, which is `todo!()`.
- `Value` and `ValueRef` deserialization go through `deserialize_any`, which is `todo!()`. Only their visitors are modelled, driven by the visitor call a deserializer would make.
- Values.VisitValue: the rejection message is the fixed `INVALID_TYPE` text, not serde's formatted `invalid_type` message that names the unexpected value.
- ValueRefs.VisitValueRef: the rejection message is simplified in the same way.
- `types::Dictionary` is declared as a `HashMap`, while both enums derive `Ord` and their `visit_map` builds a `BTreeMap`. The model follows the `BTreeMap`: a strictly key-sorted association list.
- String keys are ordered by code point. Rust orders `String`s by their UTF-8 bytes, which gives the same order.
- `src/lib.rs` does not declare `value` or `value_ref` as modules. Both are modelled as written.
- The lexer's `i64` overflow wraps as in a release build. A debug build panics instead.
- `len as usize` is modelled for a 64-bit `usize`.
- ReadStream.TryTake: requires `p + n < 2^64`, leaving out the overflow of `self.p + n`.
- RoundTrip.FromBinaryToBinary: holds for `i64` integers, ASCII strings and lists of those.
  - Byte strings are left out because `deserialize_bytes` is `todo!()`.
  - Non-ASCII strings are left out because `parse_string` reads bytes as Latin-1 chars.
  - `u64` values above `i64::MAX` are left out because the encoder rejects them.
- The `Display` impl of `Error` and `push_str` are not modelled separately. `push_str` is `PushBytes` of the UTF-8 bytes.
- I/O, allocation and lifetimes are not modelled. Borrowed and owned payloads are the same values in the model.
