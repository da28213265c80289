/** `serializer<buffer_target>`: appends the encoding of each value it is
    given to its target, byte by byte, tracking the nesting depth of vectors
    in `indent` for pretty printing. */
module Serializer {
  import opened Bytes
  import opened NativeLayout
  import opened FormatType
  import opened Values
  import opened Encoding
  import opened Targets

  class Serializer {
    const target: BufferTarget
    const format: Format
    const pretty: bool
    var indent: nat

    constructor (t: BufferTarget, f: Format, p: bool)
      ensures target == t && format == f && pretty == p && indent == 0
    {
      target := t;
      format := f;
      pretty := p;
      indent := 0;
    }

    /** The single-argument constructor: text layout, compact. */
    constructor Default(t: BufferTarget)
      ensures target == t && format == Text && !pretty && indent == 0
    {
      target := t;
      format := Text;
      pretty := false;
      indent := 0;
    }

    /** `write(const T&)` for an integer type `k`. */
    method WriteScalar(k: IntKind, n: int)
      requires target.Valid() && ValidKind(k) && InRange(k, n)
      modifies target
      ensures target.Valid() && target.readPos == old(target.readPos)
      ensures target.data == old(target.data) + ScalarBytes(format, k, n)
    {
      if format == Binary {
        target.Write(RawBytes(k, n));
      } else {
        target.Write(Decimal.ToString(n) + [SEMICOLON]);
      }
    }

    /** `write(const char&)`: the raw byte in both layouts. */
    method WriteChar(c: byte)
      requires target.Valid()
      modifies target
      ensures target.Valid() && target.readPos == old(target.readPos)
      ensures target.data == old(target.data) + [c]
    {
      if format == Binary {
        target.Write([c]);
      } else {
        target.Write([c]);
      }
    }

    /** `write(const std::string&)`. */
    method WriteString(s: seq<byte>)
      requires target.Valid() && |s| < SizeLimit
      modifies target
      ensures target.Valid() && target.readPos == old(target.readPos)
      ensures target.data == old(target.data) + StringBytes(format, s)
    {
      if format == Binary {
        target.Write(RawBytes(SizeT, |s|));
        target.Write(s);
      } else {
        WriteQuoted(s);
      }
    }

    /** The text branch of `write(const std::string&)`: an opening quote,
        each byte with a `\` in front of `"` and `\`, then `"; `. */
    method WriteQuoted(s: seq<byte>)
      requires target.Valid() && |s| < SizeLimit
      modifies target
      ensures target.Valid() && target.readPos == old(target.readPos)
      ensures target.data == old(target.data) + StringBytes(Text, s)
    {
      target.Write([QUOTE]);
      ghost var head := target.data;
      var i := 0;
      while i < |s|
        invariant 0 <= i <= |s|
        invariant target.Valid() && target.readPos == old(target.readPos)
        invariant target.data == head + Escape(s[..i])
      {
        ghost var written := target.data;
        var ch := s[i];
        if ch == QUOTE || ch == BACKSLASH {
          target.Write([BACKSLASH]);
        }
        target.Write([ch]);
        assert target.data == written + EscapeByte(ch);
        EscapeStep(head, s, i);
        i := i + 1;
      }
      target.Write([QUOTE, SEMICOLON, SPACE]);
      TextStringWritten(old(target.data), head, target.data, s);
    }

    /** The inline `for (j = 0; j < indent; ++j) write("\t")` loops. */
    method WriteTabs(n: nat)
      requires target.Valid()
      modifies target
      ensures target.Valid() && target.readPos == old(target.readPos)
      ensures target.data == old(target.data) + Tabs(n)
    {
      var j := 0;
      while j < n
        invariant 0 <= j <= n
        invariant target.Valid() && target.readPos == old(target.readPos)
        invariant target.data == old(target.data) + Tabs(j)
      {
        target.Write([TAB]);
        RepeatSucc(TAB, j);
        j := j + 1;
      }
    }

    /** `write(const std::vector<T>&)`: in binary a `size_t` count and the
        items; in text a bracketed list. */
    method WriteVector(e: Shape, items: seq<Value>)
      requires target.Valid() && WellFormed(Vector(e, items))
      modifies this, target
      ensures target.Valid() && target.readPos == old(target.readPos)
      ensures target.data == old(target.data) + Encode(format, pretty, old(indent), Vector(e, items))
      ensures indent == old(indent)
      decreases Vector(e, items), 2
    {
      hide *;
      if format == Binary {
        VectorItems(e, items);
        SizeFits(|items|);
        WriteScalar(SizeT, |items|);
        ScalarBytesBinary(SizeT, |items|);
        WriteItems(e, items);
        EncodeVectorBinary(pretty, indent, e, items);
      } else {
        WriteBracketed(e, items);
      }
    }

    /** The text branch of `write(const std::vector<T>&)`: `[`, then `]` at
        once for an empty vector; otherwise a line break, the items one
        level deeper, the closing line's tabs and `]`, with the depth
        restored afterwards. */
    method WriteBracketed(e: Shape, items: seq<Value>)
      requires target.Valid() && WellFormed(Vector(e, items)) && format == Text
      modifies this, target
      ensures target.Valid() && target.readPos == old(target.readPos)
      ensures target.data == old(target.data) + Encode(Text, pretty, old(indent), Vector(e, items))
      ensures indent == old(indent)
      decreases Vector(e, items), 1
    {
      VectorItems(e, items);
      hide Encode, ItemsBytes, WellFormed, ValidShape, ShapeOf;
      target.Write([LBRACKET]);
      if |items| == 0 {
        target.Write([RBRACKET]);
        EncodeVectorEmpty(pretty, indent, e);
        return;
      }
      if pretty {
        target.Write([LF]);
      }
      ghost var head := target.data;
      indent := indent + 1;
      WriteItems(e, items);
      ghost var filled := target.data;
      indent := indent - 1;
      if pretty {
        WriteTabs(indent);
      }
      ghost var indented := target.data;
      target.Write([RBRACKET]);
      TextVectorWritten(old(target.data), head, filled, indented, target.data, pretty, indent, e, items);
    }

    /** The item loop of `write(const std::vector<T>&)`: each item in turn,
        in text mode on its own line indented to the current depth when
        pretty. */
    method WriteItems(e: Shape, items: seq<Value>)
      requires target.Valid() && WellFormed(Vector(e, items))
      modifies this, target
      ensures target.Valid() && target.readPos == old(target.readPos)
      ensures target.data == old(target.data) + ItemsBytes(format, pretty, old(indent), e, items, 0)
      ensures indent == old(indent)
      decreases Vector(e, items), 0
    {
      VectorItems(e, items);
      hide *;
      var i := 0;
      while i < |items|
        invariant 0 <= i <= |items|
        invariant indent == old(indent)
        invariant target.Valid() && target.readPos == old(target.readPos)
        invariant target.data + ItemsBytes(format, pretty, indent, e, items, i)
                  == old(target.data) + ItemsBytes(format, pretty, indent, e, items, 0)
      {
        ghost var written := target.data;
        WriteItem(items[i]);
        ItemsBytesStep(format, pretty, indent, e, items, i);
        AppendAssoc(written, ItemLine(format, pretty, indent, items[i]),
                    ItemsBytes(format, pretty, indent, e, items, i + 1));
        i := i + 1;
      }
      ItemsBytesEnd(format, pretty, indent, e, items);
      assert target.data + [] == target.data;
    }

    /** One turn of the item loop: the item alone in binary; in text its
        line's tabs, the item and the line break, the tabs and line break
        only when pretty. */
    method WriteItem(v: Value)
      requires target.Valid() && WellFormed(v)
      modifies this, target
      ensures target.Valid() && target.readPos == old(target.readPos)
      ensures target.data == old(target.data) + ItemLine(format, pretty, old(indent), v)
      ensures indent == old(indent)
      decreases v, 4
    {
      if format == Binary {
        WriteValue(v);
      } else {
        ghost var start := target.data;
        if pretty {
          WriteTabs(indent);
        }
        ghost var tabs := target.data;
        assert tabs == start + Indentation(pretty, indent);
        WriteValue(v);
        ghost var item := target.data;
        if pretty {
          target.Write([LF]);
        }
        assert target.data == item + LineBreak(pretty);
        hide *;
        AppendAssoc(start, Indentation(pretty, indent), Encode(format, pretty, indent, v));
        AppendAssoc(start, Indentation(pretty, indent) + Encode(format, pretty, indent, v), LineBreak(pretty));
      }
    }

    /** The overload set of `write`, chosen by the value's shape. */
    method WriteValue(v: Value)
      requires target.Valid() && WellFormed(v)
      modifies this, target
      ensures target.Valid() && target.readPos == old(target.readPos)
      ensures target.data == old(target.data) + Encode(format, pretty, old(indent), v)
      ensures indent == old(indent)
      decreases v, 3
    {
      match v
      case Scalar(k, n) => WriteScalar(k, n);
      case Char(c) => WriteChar(c);
      case Str(s) => WriteString(s);
      case Vector(e, items) => WriteVector(e, items);
    }
  }
}
