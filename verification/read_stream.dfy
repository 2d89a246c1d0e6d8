/** `ReadBinaryStream`: the same read head as `BinaryStream`, with a
    `TryTake` that hands out a whole slice of the buffer at once. */
module ReadStream {
  import opened Ascii
  import opened Errors
  import opened Ints
  import Stream

  datatype ReadBinaryStream = ReadBinaryStream(data: seq<Byte>, p: nat) {

    predicate Valid() {
      p <= |data|
    }
  }

  function New(data: seq<Byte>): (s: ReadBinaryStream)
    ensures s.Valid() && s.p == 0 && s.data == data
  {
    ReadBinaryStream(data, 0)
  }

  function TryPeek(s: ReadBinaryStream): (r: Result<Byte>)
    ensures r.Ok? <==> s.p < |s.data|
    ensures r.Ok? ==> r.value == s.data[s.p]
    ensures r.Err? ==> r.error == Eof
  {
    if s.p >= |s.data| then Err(Eof) else Ok(s.data[s.p])
  }

  function TryNext(s: ReadBinaryStream): (r: Result<(Byte, ReadBinaryStream)>)
    ensures r.Ok? <==> s.p < |s.data|
    ensures r.Ok? ==> r.value.0 == s.data[s.p] && r.value.1 == s.(p := s.p + 1)
    ensures r.Ok? && s.Valid() ==> r.value.1.Valid()
    ensures r.Err? ==> r.error == Eof
  {
    var v :- TryPeek(s);
    Ok((v, s.(p := s.p + 1)))
  }

  /** The next `n` bytes as one slice of the buffer, with the head moved past
      them; `Eof` when fewer than `n` remain. The sum `p + n` is a `usize`, so
      it must not overflow. */
  function TryTake(s: ReadBinaryStream, n: nat): (r: Result<(seq<Byte>, ReadBinaryStream)>)
    requires s.p + n < TWO_64
    ensures r.Ok? <==> s.p + n <= |s.data|
    ensures r.Ok? ==> |r.value.0| == n && r.value.0 == s.data[s.p..s.p + n]
    ensures r.Ok? ==> r.value.1 == s.(p := s.p + n) && r.value.1.Valid()
    ensures r.Err? ==> r.error == Eof
  {
    var newP := s.p + n;
    if newP > |s.data| then Err(Eof) else Ok((s.data[s.p..newP], s.(p := newP)))
  }

  /** The `Iterator` impl: `TryNext` with the error turned into `None`. */
  function Next(s: ReadBinaryStream): (r: (Option<Byte>, ReadBinaryStream))
    ensures r.0.None? <==> s.p >= |s.data|
    ensures r.0.None? ==> r.1 == s
    ensures r.0.Some? ==> r.0.value == s.data[s.p] && r.1 == s.(p := s.p + 1)
  {
    match TryNext(s)
    case Ok((v, s')) => (Some(v), s')
    case Err(_) => (None, s)
  }

  /** `n` successive `TryNext` calls, collecting the bytes. */
  function NextN(s: ReadBinaryStream, n: nat): Result<(seq<Byte>, ReadBinaryStream)>
    decreases n
  {
    if n == 0 then Ok(([], s))
    else
      var first :- TryNext(s);
      var rest :- NextN(first.1, n - 1);
      Ok(([first.0] + rest.0, rest.1))
  }

  /** Taking `n` bytes at once is the same as reading them one by one, both
      in what is returned and in where the head ends up. */
  lemma {:induction false} TakeIsRepeatedNext(s: ReadBinaryStream, n: nat)
    requires s.Valid() && s.p + n < TWO_64
    ensures TryTake(s, n).Ok? <==> NextN(s, n).Ok?
    ensures TryTake(s, n).Ok? ==> TryTake(s, n) == NextN(s, n)
    decreases n
  {
    if n > 0 && s.p < |s.data| {
      var s' := s.(p := s.p + 1);
      TakeIsRepeatedNext(s', n - 1);
      if s.p + n <= |s.data| {
        assert s.data[s.p..s.p + n] == [s.data[s.p]] + s'.data[s'.p..s'.p + (n - 1)];
      }
    }
  }

  /** Peek, next and the iterator read the buffer exactly as the decoder's
      `BinaryStream` does at the same position. */
  lemma AgreesWithBinaryStream(s: ReadBinaryStream)
    ensures TryPeek(s) == Stream.TryPeek(Stream.BinaryStream(s.data, s.p))
    ensures TryNext(s).Ok? <==> Stream.TryNext(Stream.BinaryStream(s.data, s.p)).Ok?
    ensures TryNext(s).Ok? ==>
      var a := TryNext(s).value;
      var b := Stream.TryNext(Stream.BinaryStream(s.data, s.p)).value;
      a.0 == b.0 && a.1.p == b.1.p
    ensures Next(s).0 == Stream.Next(Stream.BinaryStream(s.data, s.p)).0
    ensures Next(s).1.p == Stream.Next(Stream.BinaryStream(s.data, s.p)).1.p
  {
  }
}
