/** The decoder: reads one bencoded token from a `BinaryStream` into the
    value of a requested type. */
module De {
  import opened Ascii
  import opened Errors
  import opened Ints
  import opened Stream
  import opened DataModel

  // ---------------------------------------------------------------------
  // The signed-integer lexer
  // ---------------------------------------------------------------------

  /** The digit loop of the lexer: `take_while(|v| v != terminator)` over the
      stream's iterator, folded with `acc * 10 + digit` in `i64` arithmetic.
      The terminator is consumed; running out of bytes ends the run without
      an error; a non-digit before the terminator is `ExpectedNumber`. */
  function FoldDigits(s: BinaryStream, terminator: Byte, acc: int): (r: Result<(int, BinaryStream)>)
    requires s.Valid()
    ensures r.Ok? ==> r.value.1.data == s.data && r.value.1.Valid() && r.value.1.p >= s.p
    ensures r.Err? ==> r.error == ExpectedNumber
    ensures r.Ok? && IsI64(acc) ==> IsI64(r.value.0)
    decreases |s.data| - s.p
  {
    match Next(s)
    case (None, s1) => Ok((acc, s1))
    case (Some(b), s1) =>
      if b == terminator then Ok((acc, s1))
      else if !IsDigit(b) then Err(ExpectedNumber)
      else FoldDigits(s1, terminator, Wrap(acc * 10 + DigitValue(b)))
  }

  /** `parse_seq_number`: an optional `-` or a first digit, then digits up to
      and including `terminator`. The result is negated whenever the seed
      taken from the first byte is zero, that is after a `-` and also after a
      leading `0`. */
  function ParseSeqNumber(s: BinaryStream, terminator: Byte): (r: Result<(int, BinaryStream)>)
    requires s.Valid()
    ensures s.p == |s.data| <==> r == Err(Eof)
    ensures s.p < |s.data| && s.data[s.p] != MINUS && !IsDigit(s.data[s.p]) ==> r == Err(ExpectedNumber)
    ensures r.Err? ==> r.error == Eof || r.error == ExpectedNumber
    ensures r.Ok? ==> IsI64(r.value.0)
    ensures r.Ok? ==> r.value.1.data == s.data && r.value.1.Valid() && r.value.1.p > s.p
  {
    var first :- TryNext(s);
    var init: int :-
      if first.0 == MINUS then Ok(0)
      else if IsDigit(first.0) then Ok(DigitValue(first.0))
      else Err(ExpectedNumber);
    var folded :- FoldDigits(first.1, terminator, init);
    Ok((if init == 0 then Wrap(-folded.0) else folded.0, folded.1))
  }

  /** The first position at or after `i` holding `t`, or the end of `data`. */
  function TokenEnd(data: seq<Byte>, i: nat, t: Byte): (k: nat)
    requires i <= |data|
    ensures i <= k <= |data|
    ensures k < |data| ==> data[k] == t
    ensures forall j :: i <= j < k ==> data[j] != t
    decreases |data| - i
  {
    if i == |data| || data[i] == t then i else TokenEnd(data, i + 1, t)
  }

  /** What the lexer reads at position `p`, described directly on the bytes:
      the token runs from `p` to the first terminator (or the end); its first
      byte is `-` or a digit, the rest are digits; its value is the decimal
      value of its digits, negated when it starts with `-` or `0`, reduced to
      `i64`; the new position is just past the terminator. */
  function NumberSpec(data: seq<Byte>, p: nat, t: Byte): Result<(int, nat)>
    requires p <= |data|
  {
    if p == |data| then Err(Eof)
    else
      var first := data[p];
      var k := TokenEnd(data, p + 1, t);
      if !(first == MINUS || IsDigit(first)) || !AllDigits(data[p + 1..k]) then Err(ExpectedNumber)
      else
        var digits := if first == MINUS then data[p + 1..k] else data[p..k];
        var negated := first == MINUS || first == ZERO;
        var magnitude: int := Val(digits);
        Ok((Wrap(if negated then -magnitude else magnitude), if k < |data| then k + 1 else k))
  }

  /** What the digit loop should produce from position `s.p`: the decimal
      value of the run before the terminator appended to `acc`, reduced to
      `i64`, with the head just past the terminator. */
  function DigitRun(s: BinaryStream, t: Byte, acc: int): Result<(int, BinaryStream)>
    requires s.Valid()
  {
    var k := TokenEnd(s.data, s.p, t);
    var run := s.data[s.p..k];
    if AllDigits(run) then
      Ok((Wrap(Shift(acc, |run|) + Val(run)), s.(p := if k < |s.data| then k + 1 else k)))
    else Err(ExpectedNumber)
  }

  /** One digit `b` folded into the accumulator, then the rest of the run. */
  lemma FoldStep(acc: int, b: Byte, rest: seq<Byte>)
    requires IsDigit(b) && AllDigits(rest)
    ensures AllDigits([b] + rest)
    ensures Wrap(Shift(Wrap(acc * 10 + DigitValue(b)), |rest|) + Val(rest))
         == Wrap(Shift(acc, |[b] + rest|) + Val([b] + rest))
  {
    var d := DigitValue(b);
    var x := acc * 10 + d;
    ShiftWrap(x, |rest|, Val(rest));
    ShiftAdd(acc * 10, d, |rest|);
    ShiftTen(acc, |rest|);
    ValCons(b, rest);
    assert Shift(x, |rest|) + Val(rest) == Shift(acc, |[b] + rest|) + Val([b] + rest);
  }

  /** Wrapping the accumulator before moving it up changes nothing once the
      sum is wrapped again. */
  lemma ShiftWrap(x: int, n: nat, v: int)
    ensures Wrap(Shift(Wrap(x), n) + v) == Wrap(Shift(x, n) + v)
  {
    WrapQuotient(x);
    var k := (x - I64_MIN) / TWO_64;
    ShiftAdd(Wrap(x), k * TWO_64, n);
    ShiftWhole(k, n);
    WrapShift(Shift(Wrap(x), n) + v, Shift(k, n));
  }

  /** A whole multiple of 2^64 stays one when moved up. */
  lemma {:induction false} ShiftWhole(k: int, n: nat)
    ensures Shift(k * TWO_64, n) == Shift(k, n) * TWO_64
  {
    if n > 0 {
      ShiftWhole(k, n - 1);
    }
  }

  /** The digit run from a digit `b` is `b` followed by the run after it. */
  lemma {:induction false} DigitRunStep(s: BinaryStream, t: Byte, acc: int)
    requires s.Valid() && s.p < |s.data| && s.data[s.p] != t && IsDigit(s.data[s.p])
    ensures DigitRun(s, t, acc) == DigitRun(s.(p := s.p + 1), t, Wrap(acc * 10 + DigitValue(s.data[s.p])))
  {
    var k := TokenEnd(s.data, s.p, t);
    assert k == TokenEnd(s.data, s.p + 1, t);
    assert s.data[s.p..k] == [s.data[s.p]] + s.data[s.p + 1..k];
    var rest := s.data[s.p + 1..k];
    if AllDigits(rest) {
      DigitRunCons(s, t, acc, k);
    } else {
      var j :| 0 <= j < |rest| && !IsDigit(rest[j]);
      assert s.data[s.p..k][j + 1] == rest[j];
    }
  }

  /** `DigitRunStep` for a run that is all digits. */
  lemma DigitRunCons(s: BinaryStream, t: Byte, acc: int, k: nat)
    requires s.Valid() && s.p < k <= |s.data| && IsDigit(s.data[s.p])
    requires k == TokenEnd(s.data, s.p, t) && k == TokenEnd(s.data, s.p + 1, t)
    requires s.data[s.p..k] == [s.data[s.p]] + s.data[s.p + 1..k] && AllDigits(s.data[s.p + 1..k])
    ensures DigitRun(s, t, acc) == DigitRun(s.(p := s.p + 1), t, Wrap(acc * 10 + DigitValue(s.data[s.p])))
  {
    FoldStep(acc, s.data[s.p], s.data[s.p + 1..k]);
  }

  /** A non-digit before the terminator spoils the run. */
  lemma DigitRunBad(s: BinaryStream, t: Byte, acc: int)
    requires s.Valid() && s.p < |s.data| && s.data[s.p] != t && !IsDigit(s.data[s.p])
    ensures DigitRun(s, t, acc) == Err(ExpectedNumber)
  {
    var k := TokenEnd(s.data, s.p, t);
    assert s.data[s.p..k][0] == s.data[s.p];
  }

  /** The digit loop computes the decimal value of the run before the
      terminator, reduced to `i64`. */
  lemma {:induction false} FoldDigitsValue(s: BinaryStream, t: Byte, acc: int)
    requires s.Valid() && IsI64(acc)
    ensures FoldDigits(s, t, acc) == DigitRun(s, t, acc)
    decreases |s.data| - s.p
  {
    if s.p < |s.data| && s.data[s.p] != t {
      var b := s.data[s.p];
      if IsDigit(b) {
        var s1 := s.(p := s.p + 1);
        var acc' := Wrap(acc * 10 + DigitValue(b));
        assert FoldDigits(s, t, acc) == FoldDigits(s1, t, acc');
        FoldDigitsValue(s1, t, acc');
        DigitRunStep(s, t, acc);
      } else {
        DigitRunBad(s, t, acc);
      }
    } else {
      assert s.data[s.p..TokenEnd(s.data, s.p, t)] == [];
    }
  }

  /** `NumberSpec` read as a move of the stream. */
  function NumberSpecAt(s: BinaryStream, t: Byte): Result<(int, BinaryStream)>
    requires s.Valid()
  {
    match NumberSpec(s.data, s.p, t)
    case Ok((v, q)) => Ok((v, s.(p := q)))
    case Err(e) => Err(e)
  }

  /** The lexer reads exactly the token `NumberSpec` describes. */
  lemma ParseSeqNumberMeetsSpec(s: BinaryStream, t: Byte)
    requires s.Valid()
    ensures ParseSeqNumber(s, t) == NumberSpecAt(s, t)
  {
    if s.p < |s.data| {
      var first := s.data[s.p];
      if first == MINUS {
        MinusToken(s, t);
      } else if IsDigit(first) {
        DigitToken(s, t);
      }
    }
  }

  lemma MinusToken(s: BinaryStream, t: Byte)
    requires s.Valid() && s.p < |s.data| && s.data[s.p] == MINUS
    ensures ParseSeqNumber(s, t) == NumberSpecAt(s, t)
  {
    var s1 := s.(p := s.p + 1);
    var k := TokenEnd(s.data, s.p + 1, t);
    var rest := s.data[s.p + 1..k];
    var after := s.(p := if k < |s.data| then k + 1 else k);
    LeadingMinus(s, t, s1);
    FoldDigitsValue(s1, t, 0);
    MinusSpec(s, t, k, rest, after);
    MinusRun(s, t, s1, k, rest, after);
    NegatedRun(ParseSeqNumber(s, t), FoldDigits(s1, t, 0), DigitRun(s1, t, 0), NumberSpecAt(s, t), rest, after);
  }

  /** The four results `MinusToken` relates, as plain values. */
  lemma NegatedRun(parsed: Result<(int, BinaryStream)>, folded: Result<(int, BinaryStream)>,
                   run: Result<(int, BinaryStream)>, spec: Result<(int, BinaryStream)>,
                   rest: seq<Byte>, after: BinaryStream)
    requires parsed == Negated(folded) && folded == run
    requires AllDigits(rest) ==> run == Ok((Wrap(Val(rest)), after)) && spec == Ok((Wrap(-(Val(rest) as int)), after))
    requires !AllDigits(rest) ==> run == Err(ExpectedNumber) && spec == Err(ExpectedNumber)
    ensures parsed == spec
  {
    if AllDigits(rest) {
      WrapNeg(Val(rest));
    }
  }

  /** A lexer result with its value negated in `i64`. */
  function Negated(r: Result<(int, BinaryStream)>): Result<(int, BinaryStream)> {
    match r
    case Ok((v, s2)) => Ok((Wrap(-v), s2))
    case Err(e) => Err(e)
  }

  /** `parse_seq_number` after a `-`: the digit loop seeded with zero, its
      result negated. */
  lemma LeadingMinus(s: BinaryStream, t: Byte, s1: BinaryStream)
    requires s.Valid() && s.p < |s.data| && s.data[s.p] == MINUS && s1 == s.(p := s.p + 1)
    ensures ParseSeqNumber(s, t) == Negated(FoldDigits(s1, t, 0))
  {
  }

  /** The specified token after a `-`: the negated value of the digits up
      to the terminator at `k`, with the head just past it. */
  lemma MinusSpec(s: BinaryStream, t: Byte, k: nat, rest: seq<Byte>, after: BinaryStream)
    requires s.Valid() && s.p < |s.data| && s.data[s.p] == MINUS
    requires k == TokenEnd(s.data, s.p + 1, t) && rest == s.data[s.p + 1..k]
    requires after == s.(p := if k < |s.data| then k + 1 else k)
    ensures AllDigits(rest) ==> NumberSpecAt(s, t) == Ok((Wrap(-(Val(rest) as int)), after))
    ensures !AllDigits(rest) ==> NumberSpecAt(s, t) == Err(ExpectedNumber)
  {
    MinusSpecAt(s.data, s.p, t);
  }

  /** `MinusSpec` on the bytes, before the position becomes a stream. */
  lemma MinusSpecAt(data: seq<Byte>, p: nat, t: Byte)
    requires p < |data| && data[p] == MINUS
    ensures var k := TokenEnd(data, p + 1, t);
      var rest := data[p + 1..k];
      NumberSpec(data, p, t) == if AllDigits(rest) then Ok((Wrap(-(Val(rest) as int)), if k < |data| then k + 1 else k))
        else Err(ExpectedNumber)
  {
  }

  /** The digit run after a `-`, seeded with zero: the value of its digits. */
  lemma MinusRun(s: BinaryStream, t: Byte, s1: BinaryStream, k: nat, rest: seq<Byte>, after: BinaryStream)
    requires s.Valid() && s.p < |s.data| && s1 == s.(p := s.p + 1)
    requires k == TokenEnd(s.data, s.p + 1, t) && rest == s.data[s.p + 1..k]
    requires after == s.(p := if k < |s.data| then k + 1 else k)
    ensures AllDigits(rest) ==> DigitRun(s1, t, 0) == Ok((Wrap(Val(rest)), after))
    ensures !AllDigits(rest) ==> DigitRun(s1, t, 0) == Err(ExpectedNumber)
  {
    assert s1.data == s.data && s1.p == s.p + 1;
    assert s1.(p := after.p) == after;
    ZeroRun(s1, t);
  }

  /** A digit run seeded with zero is the value of its digits. */
  lemma ZeroRun(s: BinaryStream, t: Byte)
    requires s.Valid()
    ensures var k := TokenEnd(s.data, s.p, t);
      var run := s.data[s.p..k];
      DigitRun(s, t, 0) == if AllDigits(run) then Ok((Wrap(Val(run)), s.(p := if k < |s.data| then k + 1 else k)))
        else Err(ExpectedNumber)
  {
    ShiftZero(|s.data[s.p..TokenEnd(s.data, s.p, t)]|);
  }

  lemma {:induction false} ShiftZero(n: nat)
    ensures Shift(0, n) == 0
  {
    if n > 0 {
      ShiftZero(n - 1);
    }
  }

  lemma DigitToken(s: BinaryStream, t: Byte)
    requires s.Valid() && s.p < |s.data| && IsDigit(s.data[s.p])
    ensures ParseSeqNumber(s, t) == NumberSpecAt(s, t)
  {
    var d := DigitValue(s.data[s.p]);
    var s1 := s.(p := s.p + 1);
    var k := TokenEnd(s.data, s.p + 1, t);
    LeadingDigit(s, t);
    FoldDigitsValue(s1, t, d);
    if AllDigits(s.data[s.p + 1..k]) {
      DigitRunToken(s, t);
    }
  }

  /** `parse_seq_number` after a leading digit `d`: the digit loop seeded
      with `d`, negated when `d` is zero. */
  lemma LeadingDigit(s: BinaryStream, t: Byte)
    requires s.Valid() && s.p < |s.data| && IsDigit(s.data[s.p])
    ensures var d := DigitValue(s.data[s.p]);
      ParseSeqNumber(s, t) == match FoldDigits(s.(p := s.p + 1), t, d)
        case Ok((v, s2)) => Ok((if d == 0 then Wrap(-v) else v, s2))
        case Err(e) => Err(e)
  {
  }

  /** A well-formed run after a leading digit: the loop's result, negated
      for a leading `0`, is the specified value. */
  lemma DigitRunToken(s: BinaryStream, t: Byte)
    requires s.Valid() && s.p < |s.data| && IsDigit(s.data[s.p])
    requires AllDigits(s.data[s.p + 1..TokenEnd(s.data, s.p + 1, t)])
    ensures var d := DigitValue(s.data[s.p]);
      var v := DigitRun(s.(p := s.p + 1), t, d).value.0;
      NumberSpecAt(s, t) == Ok((if d == 0 then Wrap(-v) else v, DigitRun(s.(p := s.p + 1), t, d).value.1))
  {
    var mag := DigitRunValue(s, t);
    if DigitValue(s.data[s.p]) == 0 {
      WrapNeg(mag);
    }
  }

  /** The digit run after a leading digit continues that digit's value. */
  lemma DigitRunValue(s: BinaryStream, t: Byte) returns (mag: int)
    requires s.Valid() && s.p < |s.data| && IsDigit(s.data[s.p])
    requires AllDigits(s.data[s.p + 1..TokenEnd(s.data, s.p + 1, t)])
    ensures var k := TokenEnd(s.data, s.p + 1, t);
      AllDigits(s.data[s.p..k]) && mag == Val(s.data[s.p..k]) &&
      DigitRun(s.(p := s.p + 1), t, DigitValue(s.data[s.p])).value.0 == Wrap(mag)
  {
    var first := s.data[s.p];
    var k := TokenEnd(s.data, s.p + 1, t);
    var rest := s.data[s.p + 1..k];
    assert s.data[s.p..k] == [s.data[s.p]] + s.data[s.p + 1..k];
    ValCons(first, rest);
    mag := Val([first] + rest);
  }

  /** `parse_numeric`: an `i`, a number terminated by `e`, narrowed to the
      target width; a wrong first byte or a value outside the width is
      `ExpectedNumber`. */
  function ParseNumeric(s: BinaryStream, w: IntType): (r: Result<(int, BinaryStream)>)
    requires s.Valid()
    ensures s.p == |s.data| ==> r == Err(Eof)
    ensures s.p < |s.data| && s.data[s.p] != INT_TAG ==> r == Err(ExpectedNumber)
    ensures s.p < |s.data| && s.data[s.p] == INT_TAG ==>
      var q := ParseSeqNumber(s.(p := s.p + 1), END_TAG);
      (q.Err? ==> r == Err(q.error)) &&
      (q.Ok? && w.Fits(q.value.0) ==> r == q) &&
      (q.Ok? && !w.Fits(q.value.0) ==> r == Err(ExpectedNumber))
    ensures r.Ok? ==> w.Fits(r.value.0)
    ensures r.Ok? ==> r.value.1.data == s.data && r.value.1.Valid() && r.value.1.p > s.p + 1
  {
    var tag :- TryNext(s);
    if tag.0 != INT_TAG then Err(ExpectedNumber)
    else
      var num :- ParseSeqNumber(tag.1, END_TAG);
      if w.Fits(num.0) then Ok(num) else Err(ExpectedNumber)
  }

  /** `Iterator::take(n)` over the stream: up to `n` bytes, fewer when the
      buffer ends first, never an error. */
  function TakeBytes(s: BinaryStream, n: nat): (r: (seq<Byte>, BinaryStream))
    requires s.Valid()
    ensures |r.0| == if s.p + n <= |s.data| then n else |s.data| - s.p
    ensures r.1 == s.(p := s.p + |r.0|)
    ensures r.0 == s.data[s.p..r.1.p]
    decreases n
  {
    if n == 0 then ([], s)
    else
      match Next(s)
      case (None, s1) => ([], s1)
      case (Some(b), s1) =>
        var rest := TakeBytes(s1, n - 1);
        assert s.data[s.p..s.p + 1 + |rest.0|] == [b] + s.data[s.p + 1..s.p + 1 + |rest.0|];
        ([b] + rest.0, rest.1)
  }

  /** `parse_string`: a length terminated by `:`, cast `as usize`, then that
      many bytes, each read as the char with the same code. When fewer bytes
      remain the string is cut short without an error. */
  function ParseString(s: BinaryStream): (r: Result<(string, BinaryStream)>)
    requires s.Valid()
    ensures s.p == |s.data| <==> r == Err(Eof)
    ensures r.Err? ==> r.error == Eof || r.error == ExpectedNumber
    ensures r.Ok? ==> r.value.1.data == s.data && r.value.1.Valid() && r.value.1.p > s.p
  {
    var len :- ParseSeqNumber(s, COLON);
    var taken := TakeBytes(len.1, AsUsize(len.0));
    Ok((Latin1(taken.0), taken.1))
  }

  /** What `parse_string` returns: after a length that lexes, as many of the
      following bytes as the length (cast `as usize`) asks for or as remain,
      one char per byte, with the head just past them. A length that does not
      lex is the only way to fail. */
  lemma ParseStringReads(s: BinaryStream)
    requires s.Valid()
    ensures ParseString(s).Ok? <==> ParseSeqNumber(s, COLON).Ok?
    ensures ParseString(s).Err? ==> ParseString(s).error == ParseSeqNumber(s, COLON).error
    ensures ParseString(s).Ok? ==>
      var len := ParseSeqNumber(s, COLON).value;
      var start := len.1.p;
      var r := ParseString(s).value;
      |r.0| <= AsUsize(len.0) &&
      r.1.p == start + |r.0| &&
      (|r.0| < AsUsize(len.0) ==> r.1.p == |s.data|) &&
      forall i :: 0 <= i < |r.0| ==> r.0[i] as int == s.data[start + i]
  {
  }

  // ---------------------------------------------------------------------
  // Typed decoding
  // ---------------------------------------------------------------------

  /** The visitor a sequence is read with: the one of `Vec<T>`, which reads
      until the list ends, or the one of an n-tuple, which reads exactly n
      elements. */
  datatype SeqVisitor = VecVisitor(elem: Shape) | TupleVisitor(elems: seq<Shape>)

  function VisitorShape(v: SeqVisitor): Shape {
    match v
    case VecVisitor(e) => VecOf(e)
    case TupleVisitor(es) => TupleOf(es)
  }

  /** The error the tuple visitor reports when the list ends after `len` of
      its `size` elements. */
  function InvalidLength(len: nat, size: nat): Error {
    Message("invalid length " + Latin1(Digits(len)) + ", expected a tuple of size " + Latin1(Digits(size)))
  }

  /** Decode one token of type `shape` at the head of `s`. */
  function Decode(shape: Shape, s: BinaryStream): (r: Result<(Data, BinaryStream)>)
    requires s.Valid()
    ensures s.p == |s.data| ==> r == Err(Eof)
    ensures r.Ok? ==> HasShape(r.value.0, shape)
    ensures r.Ok? ==> r.value.1.data == s.data && r.value.1.Valid() && r.value.1.p > s.p
    decreases shape, 3, 0
  {
    match shape
    case IntOf(w) =>
      var n :- ParseNumeric(s, w);
      Ok((Int(w, n.0), n.1))
    case Text =>
      DeserializeString(s)
    case VecOf(e) =>
      DeserializeSeq(VecVisitor(e), s)
    case TupleOf(es) =>
      DeserializeSeq(TupleVisitor(es), s)
  }

  /** A `String` is read by `deserialize_string`. */
  lemma DecodeText(s: BinaryStream, str: string, last: BinaryStream)
    requires s.Valid() && ParseString(s) == Ok((str, last))
    ensures Decode(Text, s) == Ok((Str(str), last))
  {
  }

  /** An integer is read by `parse_numeric` at its width. */
  lemma DecodeInt(w: IntType, s: BinaryStream, n: int, last: BinaryStream)
    requires s.Valid() && ParseNumeric(s, w) == Ok((n, last))
    ensures Decode(IntOf(w), s) == Ok((Int(w, n), last))
  {
  }

  /** A `Vec` is read as an `l`, the elements the `Vec` visitor collects, and
      the `e` the visitor stops on. */
  lemma DecodeList(e: Shape, s: BinaryStream, inner: BinaryStream, items: seq<Data>, last: BinaryStream)
    requires s.Valid() && s.p < |s.data| && s.data[s.p] == LIST_TAG && inner == s.(p := s.p + 1)
    requires VisitVec(e, inner, []) == Ok((items, last))
    ensures Decode(VecOf(e), s) == Ok((Seq(items), last.(p := last.p + 1)))
  {
    VecVisitorList(e, s, inner, items, last);
  }

  /** `deserialize_seq` with the `Vec` visitor, once the visitor has
      collected `items` and stopped on an `e`. */
  lemma VecVisitorList(e: Shape, s: BinaryStream, inner: BinaryStream, items: seq<Data>, last: BinaryStream)
    requires s.Valid() && s.p < |s.data| && s.data[s.p] == LIST_TAG && inner == s.(p := s.p + 1)
    requires VisitVec(e, inner, []) == Ok((items, last))
    ensures DeserializeSeq(VecVisitor(e), s) == Ok((Seq(items), last.(p := last.p + 1)))
  {
    VisitVecStops(e, inner, [], items, last);
    NextAt(s, LIST_TAG);
    NextAt(last, END_TAG);
    VecClose(e, s, inner, items, last, last.(p := last.p + 1));
  }

  /** Reading a byte known to be `b`. */
  lemma NextAt(s: BinaryStream, b: Byte)
    requires s.p < |s.data| && s.data[s.p] == b
    ensures TryNext(s) == Ok((b, s.(p := s.p + 1)))
  {
  }

  /** The `Vec` visitor stops on an unread `e` in the same buffer. */
  lemma VisitVecStops(e: Shape, s: BinaryStream, acc: seq<Data>, items: seq<Data>, last: BinaryStream)
    requires s.Valid() && VisitVec(e, s, acc) == Ok((items, last))
    ensures last.data == s.data && last.Valid() && last.p < |s.data| && s.data[last.p] == END_TAG
  {
  }

  /** `deserialize_seq` once the `l`, the visitor's run and the `e` are
      known. */
  lemma VecClose(e: Shape, s: BinaryStream, inner: BinaryStream, items: seq<Data>, last: BinaryStream, closed: BinaryStream)
    requires s.Valid() && TryNext(s) == Ok((LIST_TAG, inner))
    requires VisitVec(e, inner, []) == Ok((items, last))
    requires TryNext(last) == Ok((END_TAG, closed))
    ensures DeserializeSeq(VecVisitor(e), s) == Ok((Seq(items), closed))
  {
  }

  /** `deserialize_string`: the string `parse_string` reads, handed to the
      `String` visitor unchanged. */
  function DeserializeString(s: BinaryStream): (r: Result<(Data, BinaryStream)>)
    requires s.Valid()
    ensures r.Ok? <==> ParseSeqNumber(s, COLON).Ok?
    ensures r.Err? ==> r.error == ParseSeqNumber(s, COLON).error
    ensures r.Ok? ==>
      var len := ParseSeqNumber(s, COLON).value;
      var start := len.1.p;
      var stop := if start + AsUsize(len.0) <= |s.data| then start + AsUsize(len.0) else |s.data|;
      start <= stop <= |s.data| &&
      r.value == (Str(Latin1(s.data[start..stop])), s.(p := stop))
  {
    var str :- ParseString(s);
    Ok((Str(str.0), str.1))
  }

  /** `deserialize_seq` (also reached from `deserialize_tuple` and
      `deserialize_tuple_struct`): an `l`, the visitor's elements, and an `e`
      that must be the very next byte once the visitor is done. */
  function DeserializeSeq(v: SeqVisitor, s: BinaryStream): (r: Result<(Data, BinaryStream)>)
    requires s.Valid()
    ensures s.p == |s.data| ==> r == Err(Eof)
    ensures s.p < |s.data| && s.data[s.p] != LIST_TAG ==> r == Err(ExpectedList)
    ensures r.Ok? ==> HasShape(r.value.0, VisitorShape(v))
    ensures r.Ok? ==> r.value.1.data == s.data && r.value.1.Valid() && r.value.1.p >= s.p + 2
    ensures r.Ok? ==> r.value.1.data[r.value.1.p - 1] == END_TAG
    decreases VisitorShape(v), 2, 0
  {
    var tag :- TryNext(s);
    if tag.0 != LIST_TAG then Err(ExpectedList)
    else
      var visited :- match v
        case VecVisitor(e) =>
          var items :- VisitVec(e, tag.1, []);
          Ok((Seq(items.0), items.1))
        case TupleVisitor(es) =>
          var fields :- VisitTuple(es, 0, tag.1, []);
          Ok((Tuple(fields.0), fields.1));
      var end :- TryNext(visited.1);
      if end.0 == END_TAG then Ok((visited.0, end.1)) else Err(ExpectedEnd)
  }

  /** `BencodeList::next_element_seed`: `None` when the next byte is `e`
      (which stays unread), otherwise one element of type `elem`. */
  function NextElement(elem: Shape, s: BinaryStream): (r: Result<(Option<Data>, BinaryStream)>)
    requires s.Valid()
    ensures s.p == |s.data| ==> r == Err(Eof)
    ensures s.p < |s.data| && s.data[s.p] == END_TAG <==> r == Ok((None, s))
    ensures r.Ok? && r.value.0.Some? ==>
      HasShape(r.value.0.value, elem) &&
      r.value.1.data == s.data && r.value.1.Valid() && r.value.1.p > s.p
    decreases elem, 4, 0
  {
    var b :- TryPeek(s);
    if b == END_TAG then Ok((None, s))
    else
      var d :- Decode(elem, s);
      Ok((Some(d.0), d.1))
  }

  /** The `Vec<T>` visitor: elements are collected in order until
      `NextElement` reports the end, so the head is left on an `e`. */
  function VisitVec(e: Shape, s: BinaryStream, acc: seq<Data>): (r: Result<(seq<Data>, BinaryStream)>)
    requires s.Valid()
    ensures r.Ok? ==> |r.value.0| >= |acc| && r.value.0[..|acc|] == acc
    ensures r.Ok? ==> forall i :: |acc| <= i < |r.value.0| ==> HasShape(r.value.0[i], e)
    ensures r.Ok? ==> r.value.1.data == s.data && r.value.1.Valid() && r.value.1.p >= s.p
    ensures r.Ok? ==> r.value.1.p < |s.data| && s.data[r.value.1.p] == END_TAG
    decreases VecOf(e), 1, |s.data| - s.p
  {
    var next :- NextElement(e, s);
    match next.0
    case None => Ok((acc, next.1))
    case Some(d) =>
      var r := VisitVec(e, next.1, acc + [d]);
      if r.Ok? then PrefixStep(r.value.0, acc, d); r else r
  }

  lemma PrefixStep<T>(items: seq<T>, acc: seq<T>, d: T)
    requires |items| >= |acc| + 1 && items[..|acc| + 1] == acc + [d]
    ensures items[..|acc|] == acc && items[|acc|] == d
  {
    assert items[..|acc|] == items[..|acc| + 1][..|acc|];
  }

  /** The n-tuple visitor: exactly one element per field; a list that ends
      early is an invalid-length error. */
  function VisitTuple(es: seq<Shape>, i: nat, s: BinaryStream, acc: seq<Data>): (r: Result<(seq<Data>, BinaryStream)>)
    requires s.Valid() && i <= |es| && |acc| == i
    requires forall j :: 0 <= j < i ==> HasShape(acc[j], es[j])
    ensures r.Ok? ==> |r.value.0| == |es| && r.value.0[..i] == acc
    ensures r.Ok? ==> forall j :: 0 <= j < |es| ==> HasShape(r.value.0[j], es[j])
    ensures r.Ok? ==> r.value.1.data == s.data && r.value.1.Valid() && r.value.1.p >= s.p
    decreases TupleOf(es), 1, |es| - i
  {
    if i == |es| then Ok((acc, s))
    else
      var next :- NextElement(es[i], s);
      match next.0
      case None => Err(InvalidLength(i, |es|))
      case Some(d) => VisitTuple(es, i + 1, next.1, acc + [d])
  }

  /** `from_binary`: decode one token of type `shape` from the start of
      `data`; whatever follows it is not looked at. */
  function FromBinary(shape: Shape, data: seq<Byte>): (r: Result<Data>)
    ensures |data| == 0 ==> r == Err(Eof)
    ensures r.Ok? ==> HasShape(r.value, shape)
  {
    var d :- Decode(shape, New(data));
    Ok(d.0)
  }
}
