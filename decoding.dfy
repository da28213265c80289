/** What `deserializer::read` computes, as functions of the format, the shape
    asked for, the stored bytes and the cursor. Each returns the value or the
    error together with the cursor offset the read leaves behind: reads
    consume bytes before they fail, and the cursor is not rewound. */
module Decoding {
  import opened Bytes
  import opened Errors
  import opened NativeLayout
  import opened Decimal
  import opened FormatType
  import opened Values
  import opened Targets
  import opened Diagnostics

  /** `_skip`: the first offset at or after `pos` that is not a separator. */
  function SkipEnd(data: seq<byte>, pos: nat): (r: nat)
    requires pos <= |data|
    ensures pos <= r <= |data|
    ensures r == |data| || !IsSeparator(data[r])
    ensures pos < r ==> IsSeparator(data[pos])
    decreases |data| - pos
  {
    if pos < |data| && IsSeparator(data[pos]) then SkipEnd(data, pos + 1) else pos
  }

  /** Everything `_skip` passes over is a separator. */
  lemma {:induction false} SkipEndSeparators(data: seq<byte>, pos: nat)
    requires pos <= |data|
    ensures forall j :: pos <= j < SkipEnd(data, pos) ==> IsSeparator(data[j])
    decreases |data| - pos
  {
    if pos < |data| && IsSeparator(data[pos]) {
      SkipEndSeparators(data, pos + 1);
    }
  }

  /** The lexer loop of the text-mode integer reader, which began at
      `start` and has reached `pos`. It gathers every byte up to the token's
      end, except that a `-` after the first byte is reported at its own
      offset, before it is consumed. */
  function Lex(data: seq<byte>, start: nat, pos: nat): (r: Decoded<seq<byte>>)
    requires start <= pos <= |data|
    ensures pos <= r.pos <= |data|
    decreases |data| - pos
  {
    if pos == |data| || data[pos] == SPACE || data[pos] == SEMICOLON then
      Ok(data[start..pos], pos)
    else if data[pos] == MINUS && pos - start != 0 then
      Fail(ErrorAt(data, pos, MINUS, Numeral), pos)
    else
      Lex(data, start, pos + 1)
  }

  /** What the lexer takes: every byte it passes is neither a space nor a
      `;`, and a `-` only as the token's first byte. A token ends at the end
      of the buffer or at a space or `;`, and is exactly the bytes passed; a
      failure is `_error_char` at a `-` after the first byte. */
  lemma {:induction false} LexMeaning(data: seq<byte>, start: nat, pos: nat)
    requires start <= pos <= |data|
    ensures var r := Lex(data, start, pos);
            (forall j :: pos <= j < r.pos ==>
               data[j] != SPACE && data[j] != SEMICOLON && (data[j] == MINUS ==> j == start))
            && (r.Ok? ==> r.value == data[start..r.pos]
                          && (r.pos == |data| || data[r.pos] == SPACE || data[r.pos] == SEMICOLON))
            && (r.Fail? ==> start < r.pos < |data| && data[r.pos] == MINUS
                            && r.error == ErrorAt(data, r.pos, MINUS, Numeral))
    decreases |data| - pos
  {
    if pos == |data| || data[pos] == SPACE || data[pos] == SEMICOLON {
    } else if data[pos] == MINUS && pos - start != 0 {
    } else {
      LexMeaning(data, start, pos + 1);
    }
  }

  /** The unescaping loop of the text-mode string reader, positioned after
      the opening quote: `\` makes the next byte literal, an unescaped `"`
      ends the string, and running out of bytes is a buffer overflow. */
  function Unescape(data: seq<byte>, pos: nat, escape: bool, value: seq<byte>): (r: Decoded<seq<byte>>)
    requires pos <= |data|
    ensures pos <= r.pos <= |data|
    ensures r.Ok? ==> pos < r.pos && data[r.pos - 1] == QUOTE
    ensures r.Fail? ==> r == Fail(Overflow, |data|)
    decreases |data| - pos
  {
    if pos == |data| then Fail(Overflow, pos)
    else
      var ch := data[pos];
      if escape then Unescape(data, pos + 1, false, value + [ch])
      else if ch == BACKSLASH then Unescape(data, pos + 1, true, value)
      else if ch == QUOTE then Ok(value, pos + 1)
      else Unescape(data, pos + 1, false, value + [ch])
  }

  /** `read(T&)` for an integer type `k`. */
  function DecodeScalar(f: Format, k: IntKind, data: seq<byte>, pos: nat): (r: Decoded<Value>)
    requires ValidKind(k) && pos <= |data|
    ensures pos <= r.pos <= |data|
    ensures r.Ok? ==> pos < r.pos && r.value.Scalar? && r.value.kind == k
  {
    if f == Binary then
      if pos + k.width > |data| then Fail(Overflow, pos)
      else Ok(Scalar(k, FromRawBytes(k, data[pos..pos + k.width])), pos + k.width)
    else
      var p := SkipEnd(data, pos);
      match Lex(data, p, p)
      case Fail(e, q) => Fail(e, q)
      case Ok(tmp, q) =>
        match StoLL(tmp)
        case Failure(e) => Fail(e, q)
        case Success(x) => Ok(Scalar(k, Narrow(k, x)), SkipEnd(data, q))
  }

  /** `read(char&)`: one raw byte; in text mode with separators skipped on
      both sides. */
  function DecodeChar(f: Format, data: seq<byte>, pos: nat): (r: Decoded<Value>)
    requires pos <= |data|
    ensures pos <= r.pos <= |data|
    ensures r.Ok? ==> pos < r.pos && r.value.Char?
  {
    if f == Binary then
      if pos + 1 > |data| then Fail(Overflow, pos)
      else Ok(Char(data[pos]), pos + 1)
    else
      var p := SkipEnd(data, pos);
      if p + 1 > |data| then Fail(Overflow, p)
      else Ok(Char(data[p]), SkipEnd(data, p + 1))
  }

  /** `read(std::string&)`: a `size_t` length and that many bytes, or a
      quoted literal. */
  function DecodeString(f: Format, data: seq<byte>, pos: nat): (r: Decoded<Value>)
    requires pos <= |data|
    ensures pos <= r.pos <= |data|
    ensures r.Ok? ==> pos < r.pos && r.value.Str?
  {
    if f == Binary then
      if pos + SizeT.width > |data| then Fail(Overflow, pos)
      else
        var len := FromRawBytes(SizeT, data[pos..pos + SizeT.width]);
        var p := pos + SizeT.width;
        if p + len > |data| then Fail(Overflow, p)
        else Ok(Str(data[p..p + len]), p + len)
    else
      var p := SkipEnd(data, pos);
      if PeekAt(data, p) != QUOTE then Fail(ErrorAt(data, p, PeekAt(data, p), Quote), p)
      else
        match Unescape(data, p + 1, false, [])
        case Fail(e, q) => Fail(e, q)
        case Ok(s, q) => Ok(Str(s), SkipEnd(data, q))
  }

  /** `read(std::vector<T>&)` for element shape `e`. The brackets are always
      read in the text grammar, whatever the format; the items are read in
      the deserializer's format. */
  function DecodeVector(f: Format, e: Shape, data: seq<byte>, pos: nat): (r: Decoded<Value>)
    requires ValidShape(e) && pos <= |data|
    ensures pos <= r.pos <= |data|
    ensures r.Ok? ==> pos < r.pos
    decreases VectorShape(e), 1, 0
  {
    var p := SkipEnd(data, pos);
    if PeekAt(data, p) != LBRACKET then Fail(ErrorAt(data, p, PeekAt(data, p), OpenBracket), p)
    else DecodeItems(f, e, data, p + 1, [])
  }

  /** The item loop of the vector reader, with `acc` read so far: it stops
      when the next byte is `]`, which it consumes with the separators after
      it. */
  function DecodeItems(f: Format, e: Shape, data: seq<byte>, pos: nat, acc: seq<Value>): (r: Decoded<Value>)
    requires ValidShape(e) && pos <= |data|
    ensures pos <= r.pos <= |data|
    ensures r.Ok? ==> pos < r.pos
    decreases VectorShape(e), 0, |data| - pos
  {
    if PeekAt(data, pos) == RBRACKET then Ok(Vector(e, acc), SkipEnd(data, pos + 1))
    else
      match Decode(f, e, data, pos)
      case Fail(err, q) => Fail(err, q)
      case Ok(v, q) => DecodeItems(f, e, data, q, acc + [v])
  }

  /** `read(T&)` over the whole overload set: the reader chosen by the
      shape asked for. A successful read always consumes input and yields a
      value of that shape. */
  function Decode(f: Format, s: Shape, data: seq<byte>, pos: nat): (r: Decoded<Value>)
    requires ValidShape(s) && pos <= |data|
    ensures pos <= r.pos <= |data|
    ensures r.Ok? ==> pos < r.pos
    decreases s, 2, 0
  {
    match s
    case ScalarShape(k) => DecodeScalar(f, k, data, pos)
    case CharShape => DecodeChar(f, data, pos)
    case StringShape => DecodeString(f, data, pos)
    case VectorShape(e) => DecodeVector(f, e, data, pos)
  }

  /** A successful read yields a value of the shape asked for, at every
      level of nesting, with integers in their type's range. */
  lemma {:induction false} DecodeConforms(f: Format, s: Shape, data: seq<byte>, pos: nat)
    requires ValidShape(s) && pos <= |data|
    ensures Decode(f, s, data, pos).Ok? ==> Conforms(Decode(f, s, data, pos).value, s)
    decreases s, 2, 0
  {
    match s
    case ScalarShape(k) =>
    case CharShape =>
    case StringShape =>
    case VectorShape(e) =>
      DecodeVectorStart(f, e, data, pos);
      var p := SkipEnd(data, pos);
      if PeekAt(data, p) == LBRACKET {
        DecodeItemsConforms(f, e, data, p + 1, []);
      }
  }

  /** The item loop keeps every item it has read of the element shape. */
  lemma {:induction false} DecodeItemsConforms(f: Format, e: Shape, data: seq<byte>, pos: nat, acc: seq<Value>)
    requires ValidShape(e) && pos <= |data|
    requires forall i :: 0 <= i < |acc| ==> Conforms(acc[i], e)
    ensures DecodeItems(f, e, data, pos, acc).Ok? ==> Conforms(DecodeItems(f, e, data, pos, acc).value, VectorShape(e))
    decreases VectorShape(e), 0, |data| - pos
  {
    if PeekAt(data, pos) != RBRACKET {
      var d := Decode(f, e, data, pos);
      if d.Ok? {
        DecodeConforms(f, e, data, pos);
        var acc' := acc + [d.value];
        assert forall i :: 0 <= i < |acc'| ==> Conforms(acc'[i], e) by {
          forall i | 0 <= i < |acc'|
            ensures Conforms(acc'[i], e)
          {
            if i < |acc| { assert acc'[i] == acc[i]; }
          }
        }
        DecodeItemsConforms(f, e, data, d.pos, acc');
      }
    }
  }

  /** One turn of the item loop: the next item is read, then the rest. */
  lemma DecodeItemsStep(f: Format, e: Shape, data: seq<byte>, pos: nat, acc: seq<Value>)
    requires ValidShape(e) && pos <= |data|
    requires PeekAt(data, pos) != RBRACKET
    ensures var d := Decode(f, e, data, pos);
            (d.Fail? ==> DecodeItems(f, e, data, pos, acc) == Fail(d.error, d.pos)) &&
            (d.Ok? ==> DecodeItems(f, e, data, pos, acc) == DecodeItems(f, e, data, d.pos, acc + [d.value]))
  {
  }

  /** The last turn of the item loop: `]` closes the vector. */
  lemma DecodeItemsEnd(f: Format, e: Shape, data: seq<byte>, pos: nat, acc: seq<Value>)
    requires ValidShape(e) && pos <= |data|
    requires PeekAt(data, pos) == RBRACKET
    ensures pos < |data|
    ensures DecodeItems(f, e, data, pos, acc) == Ok(Vector(e, acc), SkipEnd(data, pos + 1))
  {
  }

  /** The vector reader after its opening separators: a `[` starts the item
      loop, anything else is reported. */
  lemma DecodeVectorStart(f: Format, e: Shape, data: seq<byte>, pos: nat)
    requires ValidShape(e) && pos <= |data|
    ensures var p := SkipEnd(data, pos);
            DecodeVector(f, e, data, pos) ==
              if PeekAt(data, p) != LBRACKET then Fail(ErrorAt(data, p, PeekAt(data, p), OpenBracket), p)
              else DecodeItems(f, e, data, p + 1, [])
  {
  }

  /** The text-mode integer reader in three steps: separators, the lexer,
      then `std::stoll`. */
  lemma DecodeScalarText(k: IntKind, data: seq<byte>, pos: nat)
    requires ValidKind(k) && pos <= |data|
    ensures var p := SkipEnd(data, pos);
            var l := Lex(data, p, p);
            (l.Fail? ==> DecodeScalar(Text, k, data, pos) == Fail(l.error, l.pos)) &&
            (l.Ok? && StoLL(l.value).Failure? ==>
               DecodeScalar(Text, k, data, pos) == Fail(StoLL(l.value).error, l.pos)) &&
            (l.Ok? && StoLL(l.value).Success? ==>
               DecodeScalar(Text, k, data, pos) == Ok(Scalar(k, Narrow(k, StoLL(l.value).value)), SkipEnd(data, l.pos)))
  {
  }

  /** The text-mode string reader: separators, then a `"` or an error,
      then the unescaping loop. */
  lemma DecodeStringText(data: seq<byte>, pos: nat)
    requires pos <= |data|
    ensures var p := SkipEnd(data, pos);
            PeekAt(data, p) != QUOTE ==>
              DecodeString(Text, data, pos) == Fail(ErrorAt(data, p, PeekAt(data, p), Quote), p)
    ensures var p := SkipEnd(data, pos);
            PeekAt(data, p) == QUOTE ==>
              var u := Unescape(data, p + 1, false, []);
              (u.Fail? ==> DecodeString(Text, data, pos) == Fail(u.error, u.pos)) &&
              (u.Ok? ==> DecodeString(Text, data, pos) == Ok(Str(u.value), SkipEnd(data, u.pos)))
  {
  }

  /** The binary-mode string reader: a `size_t` length, then that many
      bytes. */
  lemma DecodeStringBinary(data: seq<byte>, pos: nat)
    requires pos <= |data|
    ensures pos + SizeT.width > |data| ==> DecodeString(Binary, data, pos) == Fail(Overflow, pos)
    ensures pos + SizeT.width <= |data| ==>
              var p := pos + SizeT.width;
              var len := FromRawBytes(SizeT, data[pos..p]);
              (p + len > |data| ==> DecodeString(Binary, data, pos) == Fail(Overflow, p)) &&
              (p + len <= |data| ==> DecodeString(Binary, data, pos) == Ok(Str(data[p..p + len]), p + len))
  {
  }
}
