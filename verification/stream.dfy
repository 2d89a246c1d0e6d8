/** `BinaryStream`: the bounds-checked read head over an immutable byte
    buffer that the decoder reads through. A stream is a value here; an
    operation that moves the head returns the moved stream. */
module Stream {
  import opened Ascii
  import opened Errors

  datatype BinaryStream = BinaryStream(data: seq<Byte>, p: nat) {

    /** The head never passes the end of the buffer. */
    predicate Valid() {
      p <= |data|
    }

    /** The bytes not yet consumed. */
    function Remaining(): seq<Byte>
      requires Valid()
    {
      data[p..]
    }
  }

  /** A stream at the start of `data`. */
  function New(data: seq<Byte>): (s: BinaryStream)
    ensures s.Valid() && s.p == 0 && s.data == data
    ensures s.Remaining() == data
  {
    BinaryStream(data, 0)
  }

  /** The byte under the head, without moving; `Eof` once the head is at or
      past the end. */
  function TryPeek(s: BinaryStream): (r: Result<Byte>)
    ensures r.Ok? <==> s.p < |s.data|
    ensures r.Ok? ==> r.value == s.data[s.p]
    ensures r.Err? ==> r.error == Eof
  {
    if s.p >= |s.data| then Err(Eof) else Ok(s.data[s.p])
  }

  /** The byte `TryPeek` would return, with the head moved one byte on. */
  function TryNext(s: BinaryStream): (r: Result<(Byte, BinaryStream)>)
    ensures r.Ok? <==> TryPeek(s).Ok?
    ensures r.Ok? ==> r.value.0 == TryPeek(s).value
    ensures r.Ok? ==> r.value.1 == s.(p := s.p + 1)
    ensures r.Ok? && s.Valid() ==> r.value.1.Valid()
    ensures r.Err? ==> r.error == Eof
  {
    var v :- TryPeek(s);
    Ok((v, s.(p := s.p + 1)))
  }

  /** The `Iterator` impl: `TryNext` with the error turned into `None`; at
      the end the stream is left as it was. */
  function Next(s: BinaryStream): (r: (Option<Byte>, BinaryStream))
    ensures r.0.None? <==> s.p >= |s.data|
    ensures r.0.None? ==> r.1 == s
    ensures r.0.Some? ==> r.0.value == s.data[s.p] && r.1 == s.(p := s.p + 1)
    ensures s.Valid() ==> r.1.Valid()
  {
    match TryNext(s)
    case Ok((v, s')) => (Some(v), s')
    case Err(_) => (None, s)
  }

  /** Everything the iterator yields from `s` on, in order, up to its first
      `None`. */
  function Drain(s: BinaryStream): seq<Byte>
    decreases |s.data| - s.p
  {
    match Next(s)
    case (None, _) => []
    case (Some(b), s') => [b] + Drain(s')
  }

  /** The iterator yields exactly the unconsumed bytes, in order. */
  lemma {:induction false} DrainIsRemaining(s: BinaryStream)
    requires s.Valid()
    ensures Drain(s) == s.Remaining()
    decreases |s.data| - s.p
  {
    if s.p < |s.data| {
      var s' := s.(p := s.p + 1);
      DrainIsRemaining(s');
      assert s.Remaining() == [s.data[s.p]] + s'.Remaining();
    }
  }

  /** Once exhausted, the iterator keeps answering `None` and never moves. */
  lemma ExhaustedStaysExhausted(s: BinaryStream)
    requires s.p >= |s.data|
    ensures Next(s) == (None, s)
    ensures Next(Next(s).1) == (None, s)
  {
  }
}
