/** Reading an encoded list as an n-tuple: the tuple visitor takes exactly
    n elements, and `deserialize_seq` then insists on the closing `e`. */
module TupleRead {
  import opened Ascii
  import opened Errors
  import opened Stream
  import opened DataModel
  import opened De
  import opened Ser
  import opened RoundTrip

  /** The tuple visitor over the encodings of `items[j..]`: it takes one
      element per remaining field and stops at `stop`, the start of the
      encodings it did not read, or reports an invalid length when the list
      has fewer elements than the tuple has fields. */
  lemma {:induction false} VisitTupleRun(es: seq<Shape>, items: seq<Data>, j: nat, data: seq<Byte>, pos: nat, endPos: nat)
    returns (stop: nat)
    requires j <= |items| && j <= |es|
    requires forall i :: 0 <= i < |items| ==> Canonical(items[i]) && NoTuple(items[i])
    requires forall i :: 0 <= i < |items| && i < |es| ==> HasShape(items[i], es[i])
    requires pos + |EncodedFrom(items, j)| == endPos < |data|
    requires data[pos..endPos] == EncodedFrom(items, j) && data[endPos] == END_TAG
    ensures |items| >= |es| ==> stop + |EncodedFrom(items, |es|)| == endPos
    ensures |items| >= |es| ==> data[stop..endPos] == EncodedFrom(items, |es|)
    ensures |items| >= |es| ==>
      VisitTuple(es, j, BinaryStream(data, pos), items[..j]) == Ok((items[..|es|], BinaryStream(data, stop)))
    ensures |items| < |es| ==>
      VisitTuple(es, j, BinaryStream(data, pos), items[..j]) == Err(InvalidLength(|items|, |es|))
    decreases |es| - j
  {
    if j == |es| {
      stop := pos;
    } else if j == |items| {
      stop := pos;
      TupleAtEnd(es, j, BinaryStream(data, pos), items[..j]);
    } else {
      var next := TupleStep(es, items, j, data, pos, endPos);
      stop := VisitTupleRun(es, items, j + 1, data, next, endPos);
    }
  }

  /** Element `j` of an encoded run: the tuple visitor takes it as field `j`
      and moves to the encoding of the rest. */
  lemma TupleStep(es: seq<Shape>, items: seq<Data>, j: nat, data: seq<Byte>, pos: nat, endPos: nat)
    returns (next: nat)
    requires j < |items| && j < |es|
    requires forall i :: 0 <= i < |items| ==> Canonical(items[i]) && NoTuple(items[i])
    requires forall i :: 0 <= i < |items| && i < |es| ==> HasShape(items[i], es[i])
    requires pos + |EncodedFrom(items, j)| == endPos < |data|
    requires data[pos..endPos] == EncodedFrom(items, j)
    ensures next + |EncodedFrom(items, j + 1)| == endPos
    ensures data[next..endPos] == EncodedFrom(items, j + 1)
    ensures VisitTuple(es, j, BinaryStream(data, pos), items[..j]) ==
      VisitTuple(es, j + 1, BinaryStream(data, next), items[..j + 1])
  {
    var d := items[j];
    next := RunSplit(items, j, data, pos, endPos);
    ElementAt(es[j], d, data, pos, next);
    TupleAdvance(es, j, BinaryStream(data, pos), items[..j], d, BinaryStream(data, next));
    assert items[..j] + [items[j]] == items[..j + 1];
  }

  /** One field decoded: the tuple visitor appends it and carries on. */
  lemma TupleAdvance(es: seq<Shape>, j: nat, st: BinaryStream, acc: seq<Data>, d: Data, st': BinaryStream)
    requires st.Valid() && j < |es| && |acc| == j
    requires forall i :: 0 <= i < j ==> HasShape(acc[i], es[i])
    requires st.p < |st.data| && st.data[st.p] != END_TAG
    requires Decode(es[j], st) == Ok((d, st'))
    ensures st'.Valid() && HasShape(d, es[j])
    ensures VisitTuple(es, j, st, acc) == VisitTuple(es, j + 1, st', acc + [d])
  {
    assert NextElement(es[j], st) == Ok((Some(d), st'));
  }

  /** The list ends before the tuple is full: an invalid length. */
  lemma TupleAtEnd(es: seq<Shape>, j: nat, st: BinaryStream, acc: seq<Data>)
    requires st.Valid() && j < |es| && |acc| == j
    requires forall i :: 0 <= i < j ==> HasShape(acc[i], es[i])
    requires st.p < |st.data| && st.data[st.p] == END_TAG
    ensures VisitTuple(es, j, st, acc) == Err(InvalidLength(j, |es|))
  {
    assert NextElement(es[j], st) == Ok((None, st));
  }

  /** Decoding the encoding of a list as a tuple of as many fields gives the
      tuple back; a list with more elements fails with `ExpectedEnd`, one
      with fewer with the visitor's invalid-length error. */
  lemma TupleFromList(es: seq<Shape>, items: seq<Data>)
    requires Canonical(Seq(items))
    requires forall i :: 0 <= i < |items| && i < |es| ==> HasShape(items[i], es[i])
    ensures NoTuple(Seq(items)) && ToBinary(Seq(items)).Ok?
    ensures |items| == |es| ==> FromBinary(TupleOf(es), ToBinary(Seq(items)).value) == Ok(Tuple(items))
    ensures |items| > |es| ==> FromBinary(TupleOf(es), ToBinary(Seq(items)).value) == Err(ExpectedEnd)
    ensures |items| < |es| ==>
      FromBinary(TupleOf(es), ToBinary(Seq(items)).value) == Err(InvalidLength(|items|, |es|))
  {
    CanonicalIsEncodable(Seq(items));
    var data := Encoded(Seq(items));
    assert ToBinary(Seq(items)).value == data;
    SeqLayout(items);
    var body := EncodedFrom(items, 0);
    Bracketed(data, 0, |data|, body);
    assert data[0..|data|] == data;
    TupleFromBytes(es, items, data, 1 + |body|);
  }

  /** The case split of `TupleFromList` over the bytes of the list. */
  lemma TupleFromBytes(es: seq<Shape>, items: seq<Data>, data: seq<Byte>, endPos: nat)
    requires forall i :: 0 <= i < |items| ==> Canonical(items[i]) && NoTuple(items[i])
    requires forall i :: 0 <= i < |items| && i < |es| ==> HasShape(items[i], es[i])
    requires 0 < |data| && data[0] == LIST_TAG
    requires 1 + |EncodedFrom(items, 0)| == endPos < |data|
    requires data[1..endPos] == EncodedFrom(items, 0) && data[endPos] == END_TAG
    ensures |items| == |es| ==> FromBinary(TupleOf(es), data) == Ok(Tuple(items))
    ensures |items| > |es| ==> FromBinary(TupleOf(es), data) == Err(ExpectedEnd)
    ensures |items| < |es| ==> FromBinary(TupleOf(es), data) == Err(InvalidLength(|items|, |es|))
  {
    assert items[..0] == [];
    var stop := VisitTupleRun(es, items, 0, data, 1, endPos);
    if |items| < |es| {
      TupleFailed(es, data, InvalidLength(|items|, |es|));
    } else {
      if |items| > |es| {
        EncodedFromStep(items, |es|);
        SplitSlice(data, stop, endPos, Encoded(items[|es|]), EncodedFrom(items, |es| + 1));
        NotEndAt(items[|es|], data, stop);
      } else {
        assert items[..|es|] == items;
      }
      TupleDecoded(es, data, items[..|es|], stop);
    }
  }

  /** `deserialize_seq` with the tuple visitor once the visitor has read its
      fields: the next byte must close the list. */
  lemma TupleDecoded(es: seq<Shape>, data: seq<Byte>, fields: seq<Data>, stop: nat)
    requires 0 < |data| && data[0] == LIST_TAG && stop < |data|
    requires VisitTuple(es, 0, BinaryStream(data, 1), []) == Ok((fields, BinaryStream(data, stop)))
    ensures data[stop] == END_TAG ==> FromBinary(TupleOf(es), data) == Ok(Tuple(fields))
    ensures data[stop] != END_TAG ==> FromBinary(TupleOf(es), data) == Err(ExpectedEnd)
  {
    var r := DeserializeSeq(TupleVisitor(es), New(data));
    TupleVisitorList(es, New(data), fields, BinaryStream(data, stop));
    assert Decode(TupleOf(es), New(data)) == r;
  }

  lemma TupleVisitorList(es: seq<Shape>, s: BinaryStream, fields: seq<Data>, last: BinaryStream)
    requires s.Valid() && s.p < |s.data| && s.data[s.p] == LIST_TAG
    requires VisitTuple(es, 0, s.(p := s.p + 1), []) == Ok((fields, last))
    requires last.data == s.data && last.p < |s.data|
    ensures last.data[last.p] == END_TAG ==>
      DeserializeSeq(TupleVisitor(es), s) == Ok((Tuple(fields), last.(p := last.p + 1)))
    ensures last.data[last.p] != END_TAG ==> DeserializeSeq(TupleVisitor(es), s) == Err(ExpectedEnd)
  {
    assert TryNext(s) == Ok((LIST_TAG, s.(p := s.p + 1)));
    assert TryNext(last) == Ok((last.data[last.p], last.(p := last.p + 1)));
  }

  /** A tuple visitor error is the decoder's error. */
  lemma TupleFailed(es: seq<Shape>, data: seq<Byte>, err: Error)
    requires 0 < |data| && data[0] == LIST_TAG
    requires VisitTuple(es, 0, BinaryStream(data, 1), []) == Err(err)
    ensures FromBinary(TupleOf(es), data) == Err(err)
  {
    var s := New(data);
    assert TryNext(s) == Ok((LIST_TAG, BinaryStream(data, 1)));
    assert DeserializeSeq(TupleVisitor(es), s) == Err(err);
    assert Decode(TupleOf(es), s) == Err(err);
  }

  /** An encoded element does not start with `e`. */
  lemma NotEndAt(d: Data, data: seq<Byte>, pos: nat)
    requires Canonical(d) && NoTuple(d)
    requires pos + |Encoded(d)| <= |data| && data[pos..pos + |Encoded(d)|] == Encoded(d)
    ensures pos < |data| && data[pos] != END_TAG
  {
    CanonicalIsEncodable(d);
    FirstByte(d);
    assert data[pos] == data[pos..pos + |Encoded(d)|][0];
  }
}
