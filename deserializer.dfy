/** `deserializer<buffer_target>`: reads values back from the target's
    cursor. Each read is proved to do what the corresponding function of the
    decoding model says, leaving the cursor where that function says, on
    success and on failure alike. */
module Deserializer {
  import opened Bytes
  import opened Errors
  import opened NativeLayout
  import opened Decimal
  import opened FormatType
  import opened Values
  import opened Targets
  import opened Diagnostics
  import opened Decoding

  class Deserializer {
    const target: BufferTarget
    const format: Format

    constructor (t: BufferTarget, f: Format)
      ensures target == t && format == f
    {
      target := t;
      format := f;
    }

    /** The single-argument constructor: text layout. */
    constructor Default(t: BufferTarget)
      ensures target == t && format == Text
    {
      target := t;
      format := Text;
    }

    /** `_skip`: discards separators up to the first other byte or the end. */
    method Skip()
      requires target.Valid()
      modifies target
      ensures target.Valid() && target.data == old(target.data)
      ensures target.readPos == SkipEnd(target.data, old(target.readPos))
    {
      while !target.Eof()
        invariant target.Valid() && target.data == old(target.data)
        invariant old(target.readPos) <= target.readPos
        invariant SkipEnd(target.data, target.readPos) == SkipEnd(target.data, old(target.readPos))
        decreases |target.data| - target.readPos
      {
        var c := target.Peek();
        if c == SPACE || c == SEMICOLON || c == LF || c == TAB || c == CR {
          var discard := target.Read(1);
        } else {
          break;
        }
      }
    }

    /** `_error_char(ch, ...)`: builds the error from the cursor and the two
        context windows; the buffer is left as it is. */
    method ErrorChar(ch: byte, expected: Expected) returns (e: Error)
      requires target.Valid()
      ensures e == ErrorAt(target.data, target.readPos, ch, expected)
    {
      var pos := target.Tell();
      var before := target.Context(ContextWidth, 0, 0);
      var after := target.Context(0, ContextWidth, 1);
      e := Unexpected(ch, expected, pos, before, after);
    }

    /** `read(T&)` for an integer type `k`: raw bytes, or the lexer loop
        followed by `std::stoll` and the conversion to the type. */
    method ReadScalar(k: IntKind) returns (r: Result<Value>)
      requires target.Valid() && ValidKind(k)
      modifies target
      ensures target.Valid() && target.data == old(target.data)
      ensures r == ToResult(DecodeScalar(format, k, target.data, old(target.readPos)))
      ensures target.readPos == DecodeScalar(format, k, target.data, old(target.readPos)).pos
    {
      if format == Binary {
        var bytes := target.Read(k.width);
        if bytes.Failure? {
          return Failure(bytes.error);
        }
        return Success(Scalar(k, FromRawBytes(k, bytes.value)));
      }
      DecodeScalarText(k, target.data, target.readPos);
      Skip();
      var tmp := ReadToken();
      if tmp.Failure? {
        return Failure(tmp.error);
      }
      var n := StoLL(tmp.value);
      if n.Failure? {
        return Failure(n.error);
      }
      Skip();
      return Success(Scalar(k, Narrow(k, n.value)));
    }

    /** The lexer loop of `read(T&)` in text mode: bytes up to the end or
        the first space or `;`, with `_error_char` on a `-` that is not the
        first byte. */
    method ReadToken() returns (r: Result<seq<byte>>)
      requires target.Valid()
      modifies target
      ensures target.Valid() && target.data == old(target.data)
      ensures r == ToResult(Lex(target.data, old(target.readPos), old(target.readPos)))
      ensures target.readPos == Lex(target.data, old(target.readPos), old(target.readPos)).pos
    {
      ghost var start := target.readPos;
      var tmp: seq<byte> := [];
      var o := 0;
      while !target.Eof()
        invariant target.Valid() && target.data == old(target.data)
        invariant start <= target.readPos
        invariant o == target.readPos - start && tmp == target.data[start..target.readPos]
        invariant Lex(target.data, start, target.readPos) == Lex(target.data, start, start)
        decreases |target.data| - target.readPos
      {
        var ch := target.Peek();
        if ch == SPACE || ch == SEMICOLON {
          break;
        }
        if (ch < ZERO || ch > NINE) && (ch == MINUS && o != 0) {
          var e := ErrorChar(ch, Numeral);
          return Failure(e);
        }
        ghost var at := target.readPos;
        var got := target.Read(1);
        assert got.Success? && got.value == target.data[at..at + 1];
        assert got.value == [ch];
        tmp := tmp + got.value;
        o := o + 1;
      }
      return Success(tmp);
    }

    /** `read(char&)`. */
    method ReadChar() returns (r: Result<Value>)
      requires target.Valid()
      modifies target
      ensures target.Valid() && target.data == old(target.data)
      ensures r == ToResult(DecodeChar(format, target.data, old(target.readPos)))
      ensures target.readPos == DecodeChar(format, target.data, old(target.readPos)).pos
    {
      if format == Binary {
        var got := target.Read(1);
        if got.Failure? {
          return Failure(got.error);
        }
        return Success(Char(got.value[0]));
      }
      Skip();
      var got := target.Read(1);
      if got.Failure? {
        return Failure(got.error);
      }
      Skip();
      return Success(Char(got.value[0]));
    }

    /** `read(std::string&)`. */
    method ReadString() returns (r: Result<Value>)
      requires target.Valid()
      modifies target
      ensures target.Valid() && target.data == old(target.data)
      ensures r == ToResult(DecodeString(format, target.data, old(target.readPos)))
      ensures target.readPos == DecodeString(format, target.data, old(target.readPos)).pos
    {
      if format == Binary {
        r := ReadSized();
        return;
      }
      DecodeStringText(target.data, target.readPos);
      Skip();
      if target.Peek() != QUOTE {
        var e := ErrorChar(target.Peek(), Quote);
        return Failure(e);
      }
      var opening := target.Read(1);
      var value := ReadQuoted();
      if value.Failure? {
        return Failure(value.error);
      }
      Skip();
      return Success(Str(value.value));
    }

    /** The binary branch of `read(std::string&)`: a `size_t` length, then
        that many bytes. */
    method ReadSized() returns (r: Result<Value>)
      requires target.Valid()
      modifies target
      ensures target.Valid() && target.data == old(target.data)
      ensures r == ToResult(DecodeString(Binary, target.data, old(target.readPos)))
      ensures target.readPos == DecodeString(Binary, target.data, old(target.readPos)).pos
    {
      DecodeStringBinary(target.data, target.readPos);
      var header := target.Read(SizeT.width);
      if header.Failure? {
        return Failure(header.error);
      }
      var len := FromRawBytes(SizeT, header.value);
      var body := target.Read(len);
      if body.Failure? {
        return Failure(body.error);
      }
      return Success(Str(body.value));
    }

    /** The unescaping loop of `read(std::string&)` in text mode, after the
        opening quote. */
    method ReadQuoted() returns (r: Result<seq<byte>>)
      requires target.Valid()
      modifies target
      ensures target.Valid() && target.data == old(target.data)
      ensures r == ToResult(Unescape(target.data, old(target.readPos), false, []))
      ensures target.readPos == Unescape(target.data, old(target.readPos), false, []).pos
    {
      var value: seq<byte> := [];
      var escape := false;
      while true
        invariant target.Valid() && target.data == old(target.data)
        invariant old(target.readPos) <= target.readPos
        invariant Unescape(target.data, target.readPos, escape, value)
                  == Unescape(target.data, old(target.readPos), false, [])
        decreases |target.data| - target.readPos
      {
        var got := target.Read(1);
        if got.Failure? {
          return Failure(got.error);
        }
        var ch := got.value[0];
        if escape {
          value := value + [ch];
          escape := false;
        } else if ch == BACKSLASH {
          escape := true;
        } else if ch == QUOTE {
          assert Unescape(target.data, old(target.readPos), false, []) == Ok(value, target.readPos);
          break;
        } else {
          value := value + [ch];
        }
      }
      return Success(value);
    }

    /** `read(std::vector<T>&)` for element shape `e`: the separators and
        the opening bracket, then the item loop. */
    method ReadVector(e: Shape) returns (r: Result<Value>)
      requires target.Valid() && ValidShape(e)
      modifies target
      ensures target.Valid() && target.data == old(target.data)
      ensures r == ToResult(DecodeVector(format, e, target.data, old(target.readPos)))
      ensures target.readPos == DecodeVector(format, e, target.data, old(target.readPos)).pos
      decreases VectorShape(e), 1
    {
      DecodeVectorStart(format, e, target.data, target.readPos);
      Skip();
      if target.Peek() != LBRACKET {
        var err := ErrorChar(target.Peek(), OpenBracket);
        return Failure(err);
      }
      var discard := target.Read(1);
      r := ReadItems(e);
    }

    /** The item loop of `read(std::vector<T>&)`, after the `[`: items are
        read until the next byte is `]`, which is consumed together with the
        separators after it. */
    method ReadItems(e: Shape) returns (r: Result<Value>)
      requires target.Valid() && ValidShape(e)
      modifies target
      ensures target.Valid() && target.data == old(target.data)
      ensures r == ToResult(DecodeItems(format, e, target.data, old(target.readPos), []))
      ensures target.readPos == DecodeItems(format, e, target.data, old(target.readPos), []).pos
      decreases VectorShape(e), 0
    {
      ghost var data := target.data;
      ghost var spec := DecodeItems(format, e, data, target.readPos, []);
      var items: seq<Value> := [];
      while target.Peek() != RBRACKET
        invariant target.Valid() && target.data == data
        invariant DecodeItems(format, e, data, target.readPos, items) == spec
        decreases |data| - target.readPos
      {
        DecodeItemsStep(format, e, data, target.readPos, items);
        var item := ReadValue(e);
        if item.Failure? {
          return Failure(item.error);
        }
        items := items + [item.value];
      }
      DecodeItemsEnd(format, e, data, target.readPos, items);
      var discard := target.Read(1);
      Skip();
      return Success(Vector(e, items));
    }

    /** `read(T&)` over the overload set, chosen by the shape asked for. */
    method ReadValue(s: Shape) returns (r: Result<Value>)
      requires target.Valid() && ValidShape(s)
      modifies target
      ensures target.Valid() && target.data == old(target.data)
      ensures r == ToResult(Decode(format, s, target.data, old(target.readPos)))
      ensures target.readPos == Decode(format, s, target.data, old(target.readPos)).pos
      decreases s, 2
    {
      match s
      case ScalarShape(k) => r := ReadScalar(k);
      case CharShape => r := ReadChar();
      case StringShape => r := ReadString();
      case VectorShape(e) => r := ReadVector(e);
    }
  }
}
