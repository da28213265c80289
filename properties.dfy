/** Properties of the codec as a whole: the binary round trip, the places
    where the reader and the writer part ways, and the reader's behaviour on
    a few inputs of each kind. */
module Properties {
  import opened Bytes
  import opened Errors
  import opened NativeLayout
  import opened Decimal
  import opened FormatType
  import opened Values
  import opened Encoding
  import opened Targets
  import opened Diagnostics
  import opened Decoding
  import opened RoundTrip

  const Int32: IntKind := IntKind(4, true)
  const UInt8: IntKind := IntKind(1, false)
  const UInt64: IntKind := IntKind(8, false)

  /** Binary round trip for every value other than a vector: the reader
      consumes exactly the bytes the writer appended (`sizeof(T)` for an
      integer, one byte for a `char`, a `size_t` prefix and the bytes for a
      string) and gives the value back. */
  lemma BinaryRoundTrip(v: Value, pretty: bool, d: nat, data: seq<byte>, p: nat)
    requires WellFormed(v) && NoVector(v)
    requires HoldsAt(data, p, Encode(Binary, pretty, d, v))
    ensures ValidShape(ShapeOf(v))
    ensures v.Scalar? ==> |Encode(Binary, pretty, d, v)| == v.kind.width
    ensures v.Char? ==> |Encode(Binary, pretty, d, v)| == 1
    ensures v.Str? ==> |Encode(Binary, pretty, d, v)| == SizeT.width + |v.s|
    ensures Decode(Binary, ShapeOf(v), data, p) == Ok(v, p + |Encode(Binary, pretty, d, v)|)
  {
    var enc := Encode(Binary, pretty, d, v);
    match v
    case Scalar(k, n) =>
      assert enc == RawBytes(k, n);
      HoldsAtSlice(data, p, enc);
      RawBytesRoundTrip(k, n);
    case Char(c) =>
      assert enc == [c];
      HoldsAtIndex(data, p, enc, 0);
    case Str(s) =>
      SizeFits(|s|);
      var len := RawBytes(SizeT, |s|);
      assert enc == len + s;
      HoldsAtSplit(data, p, len, s);
      HoldsAtSlice(data, p, len);
      HoldsAtSlice(data, p + |len|, s);
      RawBytesRoundTrip(SizeT, |s|);
      DecodeStringBinary(data, p);
  }

  /** The first byte of a `size_t` is its low byte. */
  lemma LowByteFirst(n: nat)
    requires n < SizeLimit
    ensures ValidKind(SizeT) && InRange(SizeT, n)
    ensures RawBytes(SizeT, n)[0] == n % 256
  {
    SizeFits(n);
  }

  /** The vector reader reads brackets whatever the format, so a binary
      vector, which starts with the low byte of its length, is refused
      whenever that byte is not a separator or `[`. */
  lemma BinaryVectorUnreadable(e: Shape, items: seq<Value>, pretty: bool, d: nat, data: seq<byte>, p: nat)
    requires WellFormed(Vector(e, items))
    requires HoldsAt(data, p, Encode(Binary, pretty, d, Vector(e, items)))
    requires !IsSeparator(|items| % 256) && |items| % 256 != LBRACKET
    ensures ValidShape(e)
    ensures Decode(Binary, VectorShape(e), data, p) == Fail(ErrorAt(data, p, |items| % 256, OpenBracket), p)
  {
    VectorItems(e, items);
    var enc := Encode(Binary, pretty, d, Vector(e, items));
    EncodeVectorBinary(pretty, d, e, items);
    LowByteFirst(|items|);
    assert enc[0] == |items| % 256;
    HoldsAtIndex(data, p, enc, 0);
    assert SkipEnd(data, p) == p;
    DecodeVectorStart(Binary, e, data, p);
  }

  /** The empty vector in binary is eight zero bytes, which the vector
      reader refuses at once. */
  lemma BinaryEmptyVectorExample()
    ensures Encode(Binary, false, 0, Vector(CharShape, [])) == [0, 0, 0, 0, 0, 0, 0, 0]
    ensures var data := Encode(Binary, false, 0, Vector(CharShape, []));
            Decode(Binary, VectorShape(CharShape), data, 0) == Fail(ErrorAt(data, 0, NUL, OpenBracket), 0)
  {
    var data := Encode(Binary, false, 0, Vector(CharShape, []));
    EncodeVectorBinary(false, 0, CharShape, []);
    SizeFits(0);
    assert RawBytes(SizeT, 0) == [0, 0, 0, 0, 0, 0, 0, 0];
    BinaryVectorUnreadable(CharShape, [], false, 0, data, 0);
  }

  /** Text round trip from the start of a buffer: whatever follows the
      encoding, the reader returns the value and stops after the encoding
      and the separators that follow it. */
  lemma TextRoundTripFromStart(v: Value, pretty: bool, rest: seq<byte>)
    requires WellFormed(v) && TextSafe(v)
    ensures ValidShape(ShapeOf(v))
    ensures var enc := Encode(Text, pretty, 0, v);
            Decode(Text, ShapeOf(v), enc + rest, 0) == Ok(v, SkipEnd(enc + rest, |enc|))
  {
    var enc := Encode(Text, pretty, 0, v);
    FirstByte(v, pretty, 0);
    hide *;
    var data := enc + rest;
    HoldsAtSlice(data, 0, enc);
    assert data[0..|enc|] == enc;
    assert SkipEnd(data, 0) == 0;
    TextRoundTrip(v, pretty, 0, data, 0, 0);
  }

  /** A buffer holding exactly one encoded value reads back as that value,
      consumed to the end. */
  lemma TextRoundTripWhole(v: Value, pretty: bool)
    requires WellFormed(v) && TextSafe(v)
    ensures Decode(Text, ShapeOf(v), Encode(Text, pretty, 0, v), 0)
            == Ok(v, |Encode(Text, pretty, 0, v)|)
  {
    var enc := Encode(Text, pretty, 0, v);
    TextRoundTripFromStart(v, pretty, []);
    hide *;
    assert enc + [] == enc;
  }

  function Ints(ns: seq<int>): (r: seq<Value>)
    ensures |r| == |ns|
    ensures forall i :: 0 <= i < |ns| ==> r[i] == Scalar(Int32, ns[i])
  {
    if ns == [] then [] else [Scalar(Int32, ns[0])] + Ints(ns[1..])
  }

  /** `{{1, 2, 3}, {4, 5}}` as a `vector<vector<int>>`. */
  function CompactNested(): Value {
    Vector(VectorShape(ScalarShape(Int32)),
           [Vector(ScalarShape(Int32), Ints([1, 2, 3])), Vector(ScalarShape(Int32), Ints([4, 5]))])
  }

  /** A one-digit `int` in text is its digit and a `;`. */
  lemma DigitEncoding(d: nat, n: int)
    requires 0 <= n < 10
    ensures WellFormed(Scalar(Int32, n))
    ensures Encode(Text, false, d, Scalar(Int32, n)) == [(ZERO + n) as byte, SEMICOLON]
  {
    assert Digits(n) == [(ZERO + n) as byte];
  }

  /** `[1;2;3;]`: one-digit integers at any depth, compact. */
  lemma InnerExample(d: nat)
    ensures WellFormed(Vector(ScalarShape(Int32), Ints([1, 2, 3])))
    ensures Encode(Text, false, d, Vector(ScalarShape(Int32), Ints([1, 2, 3])))
            == [LBRACKET, 49, SEMICOLON, 50, SEMICOLON, 51, SEMICOLON, RBRACKET]
  {
    var e := ScalarShape(Int32);
    var a := Ints([1, 2, 3]);
    DigitsVector([1, 2, 3]);
    hide *;
    CompactSeparators(d);
    CompactSeparators(d + 1);
    DigitEncoding(d + 1, 1);
    DigitEncoding(d + 1, 2);
    DigitEncoding(d + 1, 3);
    EncodeVectorText(false, d, e, a);
    ItemsBytesEnd(Text, false, d + 1, e, a);
    ItemsBytesUnfold(Text, false, d + 1, e, a, 2);
    ItemsBytesUnfold(Text, false, d + 1, e, a, 1);
    ItemsBytesUnfold(Text, false, d + 1, e, a, 0);
  }

  /** `[4;5;]`. */
  lemma InnerExample2(d: nat)
    ensures WellFormed(Vector(ScalarShape(Int32), Ints([4, 5])))
    ensures Encode(Text, false, d, Vector(ScalarShape(Int32), Ints([4, 5])))
            == [LBRACKET, 52, SEMICOLON, 53, SEMICOLON, RBRACKET]
  {
    var e := ScalarShape(Int32);
    var b := Ints([4, 5]);
    DigitsVector([4, 5]);
    hide *;
    CompactSeparators(d);
    CompactSeparators(d + 1);
    DigitEncoding(d + 1, 4);
    DigitEncoding(d + 1, 5);
    EncodeVectorText(false, d, e, b);
    ItemsBytesEnd(Text, false, d + 1, e, b);
    ItemsBytesUnfold(Text, false, d + 1, e, b, 1);
    ItemsBytesUnfold(Text, false, d + 1, e, b, 0);
  }

  /** `[[1;2;3;][4;5;]]`. */
  function CompactNestedText(): (r: seq<byte>)
    ensures |r| == 16
  {
    [LBRACKET] + [LBRACKET, 49, SEMICOLON, 50, SEMICOLON, 51, SEMICOLON, RBRACKET]
    + [LBRACKET, 52, SEMICOLON, 53, SEMICOLON, RBRACKET] + [RBRACKET]
  }

  /** A vector of one-digit `int`s is a value of `std::vector<int>` that the
      text layout can carry. */
  lemma DigitsVector(ns: seq<int>)
    requires |ns| < 10
    requires forall i :: 0 <= i < |ns| ==> 0 <= ns[i] < 10
    ensures WellFormed(Vector(ScalarShape(Int32), Ints(ns))) && TextSafe(Vector(ScalarShape(Int32), Ints(ns)))
  {
    var items := Ints(ns);
    forall i | 0 <= i < |items|
      ensures WellFormed(items[i]) && TextSafe(items[i]) && ShapeOf(items[i]) == ScalarShape(Int32)
    {
      assert items[i] == Scalar(Int32, ns[i]);
    }
  }

  lemma CompactNestedWellFormed()
    ensures CompactNested() == Vector(VectorShape(ScalarShape(Int32)),
                                      [Vector(ScalarShape(Int32), Ints([1, 2, 3])),
                                       Vector(ScalarShape(Int32), Ints([4, 5]))])
    ensures WellFormed(CompactNested()) && TextSafe(CompactNested())
    ensures ShapeOf(CompactNested()) == VectorShape(VectorShape(ScalarShape(Int32)))
  {
    DigitsVector([1, 2, 3]);
    DigitsVector([4, 5]);
    var items := CompactNested().items;
    hide Ints, InRange, MinOf, MaxOf;
    assert |items| == 2;
    assert WellFormed(CompactNested());
  }

  /** Compact text writes no tabs and no line breaks. */
  lemma CompactSeparators(d: nat)
    ensures Indentation(false, d) == [] && LineBreak(false) == []
  {
  }

  /** The item loop for the outer vector writes the two inner vectors back
      to back. */
  lemma CompactNestedItems()
    ensures forall j :: 0 <= j < 2 ==> WellFormed([Vector(ScalarShape(Int32), Ints([1, 2, 3])),
                                                   Vector(ScalarShape(Int32), Ints([4, 5]))][j])
    ensures ItemsBytes(Text, false, 1, VectorShape(ScalarShape(Int32)),
                       [Vector(ScalarShape(Int32), Ints([1, 2, 3])), Vector(ScalarShape(Int32), Ints([4, 5]))], 0)
            == [LBRACKET, 49, SEMICOLON, 50, SEMICOLON, 51, SEMICOLON, RBRACKET]
               + [LBRACKET, 52, SEMICOLON, 53, SEMICOLON, RBRACKET]
  {
    hide *;
    var e := VectorShape(ScalarShape(Int32));
    var a := Vector(ScalarShape(Int32), Ints([1, 2, 3]));
    var b := Vector(ScalarShape(Int32), Ints([4, 5]));
    var items := [a, b];
    InnerExample(1);
    InnerExample2(1);
    CompactSeparators(1);
    ItemsBytesEnd(Text, false, 1, e, items);
    ItemsBytesUnfold(Text, false, 1, e, items, 1);
    ItemsBytesUnfold(Text, false, 1, e, items, 0);
  }

  /** The compact text form of `{{1, 2, 3}, {4, 5}}` is `[[1;2;3;][4;5;]]`:
      no separator between the brackets and no space after an integer's
      `;`. */
  lemma CompactNestedEncoding()
    ensures WellFormed(CompactNested())
    ensures Encode(Text, false, 0, CompactNested()) == CompactNestedText()
  {
    hide Encode, ItemsBytes, WellFormed, TextSafe, ShapeOf, CompactNested, Ints, Indentation, LineBreak;
    var e := VectorShape(ScalarShape(Int32));
    var items := [Vector(ScalarShape(Int32), Ints([1, 2, 3])), Vector(ScalarShape(Int32), Ints([4, 5]))];
    CompactNestedWellFormed();
    CompactSeparators(0);
    CompactNestedItems();
    EncodeVectorText(false, 0, e, items);
  }

  /** `[[1;2;3;][4;5;]]` read as a `vector<vector<int>>` is
      `{{1, 2, 3}, {4, 5}}`, and the whole input is consumed. */
  lemma CompactNestedExample()
    ensures Decode(Text, VectorShape(VectorShape(ScalarShape(Int32))), CompactNestedText(), 0)
            == Ok(CompactNested(), 16)
  {
    CompactNestedWellFormed();
    CompactNestedEncoding();
    assert |CompactNestedText()| == 16;
    hide *;
    TextRoundTripWhole(CompactNested(), false);
  }

  /** A read from an empty buffer fails, in either format and for every
      shape, and leaves the cursor at 0. */
  lemma EmptyInputFails(f: Format, s: Shape)
    requires ValidShape(s)
    ensures Decode(f, s, [], 0).Fail? && Decode(f, s, [], 0).pos == 0
  {
  }

  /** `std::stoll` reads the longest numeric prefix of the token: `12ab;`
      as an `int` is 12. */
  lemma NumericPrefixExample()
    ensures Decode(Text, ScalarShape(Int32), [49, 50, 97, 98, SEMICOLON], 0) == Ok(Scalar(Int32, 12), 5)
  {
    var data: seq<byte> := [49, 50, 97, 98, SEMICOLON];
    LexToken(data, 0, 0, 4);
    assert data[0..4] == [49, 50, 97, 98];
    StoLLPrefixExample();
    assert SkipEnd(data, 0) == 0 && SkipEnd(data, 4) == 5;
    assert Narrow(Int32, 12) == 12;
    hide *;
    DecodeScalarText(Int32, data, 0);
  }

  /** `std::stoll("12ab")` is 12: the digits end the number. */
  lemma StoLLPrefixExample()
    ensures StoLL([49, 50, 97, 98]) == Success(12)
  {
    var token: seq<byte> := [49, 50, 97, 98];
    assert SpaceEnd(token, 0) == 0;
    assert DigitEnd(token, 0) == 2;
    assert DigitsValue(token[0..2]) == 12 by {
      assert token[0..2] == [49, 50];
      assert [49, 50][..1] == [49];
    }
  }

  /** A `-` after the first byte of a token is reported where it stands. */
  lemma InnerMinusExample()
    ensures var data: seq<byte> := [49, MINUS, 50, SEMICOLON];
            Decode(Text, ScalarShape(Int32), data, 0) == Fail(ErrorAt(data, 1, MINUS, Numeral), 1)
  {
    var data: seq<byte> := [49, MINUS, 50, SEMICOLON];
    DecodeScalarText(Int32, data, 0);
  }

  /** A token without digits is `std::invalid_argument`. */
  lemma NoDigitsExample()
    ensures Decode(Text, ScalarShape(Int32), [97, 98, 99, SEMICOLON], 0) == Fail(InvalidArgument, 3)
  {
    var data: seq<byte> := [97, 98, 99, SEMICOLON];
    LexToken(data, 0, 0, 3);
    DecodeScalarText(Int32, data, 0);
  }

  /** A `long long` read into a narrower type keeps its low bits: `300;`
      as a `uint8_t` is 44. */
  lemma NarrowingExample()
    ensures Decode(Text, ScalarShape(UInt8), [51, 48, 48, SEMICOLON], 0) == Ok(Scalar(UInt8, 44), 4)
  {
    var data: seq<byte> := [51, 48, 48, SEMICOLON];
    LexToken(data, 0, 0, 3);
    assert data[0..3] == ToString(300);
    StoLLOfToString(300);
    DecodeScalarText(UInt8, data, 0);
  }

  /** A `uint64_t` above the `long long` range is written in full but cannot
      be read back: `std::stoll` raises `out_of_range`. */
  lemma UnsignedOutOfRange(n: int, pretty: bool, d: nat, data: seq<byte>, p: nat, k: nat)
    requires LLongMax < n < SizeLimit
    requires p <= |data| && HoldsAt(data, k, ToString(n) + [SEMICOLON]) && SkipEnd(data, p) == k
    ensures WellFormed(Scalar(UInt64, n)) && Encode(Text, pretty, d, Scalar(UInt64, n)) == ToString(n) + [SEMICOLON]
    ensures Decode(Text, ScalarShape(UInt64), data, p) == Fail(OutOfRange, k + |ToString(n)|)
  {
    Pow256Eight();
    LexToString(data, k, n);
    StoLLOutOfRange(n);
    DecodeScalarText(UInt64, data, p);
  }

  /** A string without its closing quote runs out of input. */
  lemma UnterminatedStringExample()
    ensures Decode(Text, StringShape, [QUOTE, 97, 98, 99], 0) == Fail(Overflow, 4)
  {
    var data: seq<byte> := [QUOTE, 97, 98, 99];
    DecodeStringText(data, 0);
  }

  /** A string that does not start with `"` is refused where it starts. */
  lemma MissingQuoteExample()
    ensures var data: seq<byte> := [97, 98, 99];
            Decode(Text, StringShape, data, 0) == Fail(ErrorAt(data, 0, 97, Quote), 0)
  {
    var data: seq<byte> := [97, 98, 99];
    DecodeStringText(data, 0);
  }

  /** Text-mode characters have no terminator, so a separator character is
      skipped by the next read: writing `' '` then `'x'` gives ` x`, which
      reads back as `'x'` alone. */
  lemma SeparatorCharLost()
    ensures Encode(Text, false, 0, Char(SPACE)) + Encode(Text, false, 0, Char(120)) == [SPACE, 120]
    ensures Decode(Text, CharShape, [SPACE, 120], 0) == Ok(Char(120), 2)
  {
  }

  /** A `]` item ends the vector early: `{']'}` as a `vector<char>` is
      written `[]]`, which reads back as the empty vector, with the last
      `]` left unread. */
  lemma BracketCharLost()
    ensures WellFormed(Vector(CharShape, [Char(RBRACKET)]))
    ensures Encode(Text, false, 0, Vector(CharShape, [Char(RBRACKET)])) == [LBRACKET, RBRACKET, RBRACKET]
    ensures Decode(Text, VectorShape(CharShape), [LBRACKET, RBRACKET, RBRACKET], 0) == Ok(Vector(CharShape, []), 2)
  {
    var items := [Char(RBRACKET)];
    var data: seq<byte> := [LBRACKET, RBRACKET, RBRACKET];
    assert WellFormed(Vector(CharShape, items));
    EncodeVectorText(false, 0, CharShape, items);
    ItemsBytesEnd(Text, false, 1, CharShape, items);
    ItemsBytesUnfold(Text, false, 1, CharShape, items, 0);
    assert SkipEnd(data, 0) == 0 && SkipEnd(data, 2) == 2;
    DecodeVectorStart(Text, CharShape, data, 0);
    DecodeItemsEnd(Text, CharShape, data, 1, []);
  }
}
