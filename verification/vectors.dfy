/** The byte strings the crate's own tests pair with typed values, worked
    through the model. */
module Vectors {
  import opened Ascii
  import opened Errors
  import opened Ints
  import opened Stream
  import opened DataModel
  import opened De
  import opened Ser
  import opened RoundTrip
  import opened TupleRead

  /** The bytes of an ASCII literal. */
  function Lit(s: string): (b: seq<Byte>)
    requires IsAscii(s)
    ensures |b| == |s| && forall i :: 0 <= i < |s| ==> b[i] == s[i] as int
  {
    seq(|s|, i requires 0 <= i < |s| => s[i] as int)
  }

  /** `i05e` reads as -5: the leading `0` seeds the fold with zero, which
      the lexer takes for a minus sign. */
  lemma LeadingZeroNegates()
    ensures FromBinary(IntOf(I64), Lit("i05e")) == Ok(Int(I64, -5))
  {
    var s := New(Lit("i05e"));
    assert FoldDigits(s.(p := 3), END_TAG, 5) == Ok((5, s.(p := 4)));
    assert FoldDigits(s.(p := 2), END_TAG, 0) == Ok((5, s.(p := 4)));
    assert ParseSeqNumber(s.(p := 1), END_TAG) == Ok((-5, s.(p := 4)));
    assert ParseNumeric(s, I64) == Ok((-5, s.(p := 4)));
  }

  /** `i-1e` read as an `i16` is -1. */
  lemma MinusOne()
    ensures FromBinary(IntOf(I16), Lit("i-1e")) == Ok(Int(I16, -1))
  {
    var s := New(Lit("i-1e"));
    assert FoldDigits(s.(p := 3), END_TAG, 1) == Ok((1, s.(p := 4)));
    assert FoldDigits(s.(p := 2), END_TAG, 0) == Ok((1, s.(p := 4)));
    assert ParseSeqNumber(s.(p := 1), END_TAG) == Ok((-1, s.(p := 4)));
    assert ParseNumeric(s, I16) == Ok((-1, s.(p := 4)));
  }

  /** `3:foo` is the string "foo". */
  lemma Foo()
    ensures FromBinary(Text, Lit("3:foo")) == Ok(Str("foo"))
  {
    var s := New(Lit("3:foo"));
    assert FoldDigits(s.(p := 1), COLON, 3) == Ok((3, s.(p := 2)));
    assert ParseSeqNumber(s, COLON) == Ok((3, s.(p := 2)));
    assert TakeBytes(s.(p := 2), 3).0 == Lit("foo");
    assert Latin1(Lit("foo")) == "foo";
  }

  /** A length longer than what follows is cut short: `5:ab` is "ab". */
  lemma ShortString()
    ensures FromBinary(Text, Lit("5:ab")) == Ok(Str("ab"))
  {
    var s := New(Lit("5:ab"));
    assert FoldDigits(s.(p := 1), COLON, 5) == Ok((5, s.(p := 2)));
    assert ParseSeqNumber(s, COLON) == Ok((5, s.(p := 2)));
    assert TakeBytes(s.(p := 2), 5).0 == Lit("ab");
    assert Latin1(Lit("ab")) == "ab";
  }

  /** `le` is the empty `Vec<String>`. */
  lemma EmptyList()
    ensures FromBinary(VecOf(Text), Lit("le")) == Ok(Seq([]))
  {
    var s := New(Lit("le"));
    assert VisitVec(Text, s.(p := 1), []) == Ok(([], s.(p := 1)));
    DecodeList(Text, s, s.(p := 1), [], s.(p := 1));
  }

  /** `i-114e` is the `i64` -114. */
  lemma MinusHundredFourteen()
    ensures FromBinary(IntOf(I64), Lit("i-114e")) == Ok(Int(I64, -114))
  {
    var s := New(Lit("i-114e"));
    assert FoldDigits(s.(p := 5), END_TAG, 114) == Ok((114, s.(p := 6)));
    assert FoldDigits(s.(p := 4), END_TAG, 11) == Ok((114, s.(p := 6)));
    assert FoldDigits(s.(p := 3), END_TAG, 1) == Ok((114, s.(p := 6)));
    assert FoldDigits(s.(p := 2), END_TAG, 0) == Ok((114, s.(p := 6)));
    assert ParseSeqNumber(s.(p := 1), END_TAG) == Ok((-114, s.(p := 6)));
    assert ParseNumeric(s, I64) == Ok((-114, s.(p := 6)));
  }

  /** A four-letter ASCII word is written `4:` and its letters. */
  lemma FourLetters(w: string)
    requires IsAscii(w) && |w| == 4
    ensures Canonical(Str(w)) && NoTuple(Str(w))
    ensures Encoded(Str(w)) == Lit("4:") + Lit(w)
  {
    StringLayout(w);
    assert Digits(4) == [DigitByte(4)];
    assert Utf8(w) == Lit(w);
  }

  /** A canonical list is written `l`, its elements, `e`. */
  lemma ListBytes(items: seq<Data>)
    requires Canonical(Seq(items))
    ensures NoTuple(Seq(items)) && ToBinary(Seq(items)).Ok?
    ensures ToBinary(Seq(items)).value == [LIST_TAG] + EncodedFrom(items, 0) + [END_TAG]
  {
    CanonicalIsEncodable(Seq(items));
    SeqLayout(items);
  }

  /** The bytes of a list of four-letter words: `l`, `4:` and each word,
      `e`. */
  function WordsBytes(words: seq<string>): seq<Byte>
    requires forall i :: 0 <= i < |words| ==> IsAscii(words[i]) && |words[i]| == 4
  {
    [LIST_TAG] + WordsBody(words) + [END_TAG]
  }

  function WordsBody(words: seq<string>): seq<Byte>
    requires forall i :: 0 <= i < |words| ==> IsAscii(words[i]) && |words[i]| == 4
  {
    if |words| == 0 then [] else Lit("4:") + Lit(words[0]) + WordsBody(words[1..])
  }

  /** A list of two four-letter words is written `l4:<a>4:<b>e`. */
  lemma TwoWords(a: string, b: string)
    requires IsAscii(a) && |a| == 4 && IsAscii(b) && |b| == 4
    ensures Canonical(Seq([Str(a), Str(b)])) && NoTuple(Seq([Str(a), Str(b)]))
    ensures ToBinary(Seq([Str(a), Str(b)])) == Ok(WordsBytes([a, b]))
  {
    var items := [Str(a), Str(b)];
    FourLetters(a);
    FourLetters(b);
    ListBytes(items);
    assert EncodedFrom(items, 1) == (Lit("4:") + Lit(b)) + [];
    assert WordsBody([b]) == (Lit("4:") + Lit(b)) + WordsBody([]) by {
      assert [b][1..] == [];
    }
    assert WordsBody([a, b]) == (Lit("4:") + Lit(a)) + WordsBody([b]) by {
      assert [a, b][1..] == [b];
    }
  }

  /** A list of three four-letter words is written `l4:<a>4:<b>4:<c>e`. */
  lemma ThreeWords(a: string, b: string, c: string)
    requires IsAscii(a) && |a| == 4 && IsAscii(b) && |b| == 4 && IsAscii(c) && |c| == 4
    ensures Canonical(Seq([Str(a), Str(b), Str(c)])) && NoTuple(Seq([Str(a), Str(b), Str(c)]))
    ensures ToBinary(Seq([Str(a), Str(b), Str(c)])) == Ok(WordsBytes([a, b, c]))
  {
    var items := [Str(a), Str(b), Str(c)];
    FourLetters(a);
    FourLetters(b);
    FourLetters(c);
    ListBytes(items);
    assert EncodedFrom(items, 2) == (Lit("4:") + Lit(c)) + [];
    assert WordsBody([c]) == (Lit("4:") + Lit(c)) + WordsBody([]) by {
      assert [c][1..] == [];
    }
    assert WordsBody([b, c]) == (Lit("4:") + Lit(b)) + WordsBody([c]) by {
      assert [b, c][1..] == [c];
    }
    assert WordsBody([a, b, c]) == (Lit("4:") + Lit(a)) + WordsBody([b, c]) by {
      assert [a, b, c][1..] == [b, c];
    }
  }

  /** Two four-letter words read back as a `Vec<String>`. */
  lemma TwoWordsList(a: string, b: string)
    requires IsAscii(a) && |a| == 4 && IsAscii(b) && |b| == 4
    ensures FromBinary(VecOf(Text), WordsBytes([a, b])) == Ok(Seq([Str(a), Str(b)]))
  {
    TwoWords(a, b);
    FromBinaryToBinary(VecOf(Text), Seq([Str(a), Str(b)]), []);
    assert WordsBytes([a, b]) + [] == WordsBytes([a, b]);
  }

  /** The same bytes read back as a pair of `String`s. */
  lemma TwoWordsPair(a: string, b: string)
    requires IsAscii(a) && |a| == 4 && IsAscii(b) && |b| == 4
    ensures FromBinary(TupleOf([Text, Text]), WordsBytes([a, b])) == Ok(Tuple([Str(a), Str(b)]))
  {
    TwoWords(a, b);
    TupleFromList([Text, Text], [Str(a), Str(b)]);
  }

  /** Three words read as a pair: the closing `e` is expected where the
      third word starts. */
  lemma ThreeWordsPair(a: string, b: string, c: string)
    requires IsAscii(a) && |a| == 4 && IsAscii(b) && |b| == 4 && IsAscii(c) && |c| == 4
    ensures FromBinary(TupleOf([Text, Text]), WordsBytes([a, b, c])) == Err(ExpectedEnd)
  {
    ThreeWords(a, b, c);
    TupleFromList([Text, Text], [Str(a), Str(b), Str(c)]);
  }

  /** `l4:spam4:eggse` is the `Vec<String>` ["spam", "eggs"]. */
  lemma SpamEggsList()
    ensures FromBinary(VecOf(Text), Lit("l4:spam4:eggse")) == Ok(Seq([Str("spam"), Str("eggs")]))
  {
    SpamEggs();
    TwoWordsList("spam", "eggs");
  }

  /** `l4:spam4:eggse` is also the pair ("spam", "eggs"). */
  lemma SpamEggsPair()
    ensures FromBinary(TupleOf([Text, Text]), Lit("l4:spam4:eggse")) == Ok(Tuple([Str("spam"), Str("eggs")]))
  {
    SpamEggs();
    TwoWordsPair("spam", "eggs");
  }

  /** A third element after the pair is not skipped: reading
      `l4:spam4:eggs4:lulwe` as a pair stops where the third word starts,
      which is not the closing `e`, and fails with `ExpectedEnd`. */
  lemma ThreeWordsAsPair()
    ensures FromBinary(TupleOf([Text, Text]), Lit("l4:spam4:eggs4:lulwe")) == Err(ExpectedEnd)
  {
    SpamEggsLulw();
    ThreeWordsPair("spam", "eggs", "lulw");
  }

  /** The test inputs spelled as lists of words. */
  lemma SpamEggs()
    ensures Lit("l4:spam4:eggse") == WordsBytes(["spam", "eggs"])
  {
  }

  lemma SpamEggsLulw()
    ensures Lit("l4:spam4:eggs4:lulwe") == WordsBytes(["spam", "eggs", "lulw"])
  {
  }
}
