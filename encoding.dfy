/** What the serializer appends for a value, as a function of the format, the
    pretty-print flag and the current nesting depth. */
module Encoding {
  import opened Bytes
  import opened NativeLayout
  import opened Decimal
  import opened FormatType
  import opened Values

  function Tabs(n: nat): seq<byte> {
    Repeat(TAB, n)
  }

  /** The tabs that open a line at depth `n`, in pretty mode only. */
  function Indentation(pretty: bool, n: nat): seq<byte> {
    if pretty then Tabs(n) else []
  }

  /** The line break written in pretty mode only. */
  function LineBreak(pretty: bool): seq<byte> {
    if pretty then [LF] else []
  }

  /** A content byte of a text-mode string: `"` and `\` get a `\` in front. */
  function EscapeByte(c: byte): seq<byte> {
    if c == QUOTE || c == BACKSLASH then [BACKSLASH, c] else [c]
  }

  /** The body of a text-mode string literal. */
  function Escape(s: seq<byte>): (r: seq<byte>)
    ensures |r| >= |s|
  {
    if s == [] then [] else EscapeByte(s[0]) + Escape(s[1..])
  }

  /** Escaping distributes over appending a byte, which is how the serializer
      produces it: one byte at a time. */
  lemma {:induction false} EscapeAppend(s: seq<byte>, c: byte)
    ensures Escape(s + [c]) == Escape(s) + EscapeByte(c)
  {
    if s == [] {
      assert Escape([c]) == EscapeByte(c) + Escape([]);
    } else {
      assert (s + [c])[1..] == s[1..] + [c];
      EscapeAppend(s[1..], c);
    }
  }

  /** The first step of `Escape`. */
  lemma EscapeUnfold(s: seq<byte>)
    ensures s == [] ==> Escape(s) == []
    ensures s != [] ==> Escape(s) == EscapeByte(s[0]) + Escape(s[1..])
  {
  }

  /** One turn of the string writer's loop: the next byte, escaped. */
  lemma EscapeStep(head: seq<byte>, s: seq<byte>, i: nat)
    requires i < |s|
    ensures head + Escape(s[..i]) + EscapeByte(s[i]) == head + Escape(s[..i + 1])
  {
    assert s[..i + 1] == s[..i] + [s[i]];
    EscapeAppend(s[..i], s[i]);
  }

  /** `write(const T&)` for an integer: its raw bytes, or its decimal text
      and a `;`. */
  function ScalarBytes(f: Format, k: IntKind, n: int): (r: seq<byte>)
    requires ValidKind(k) && InRange(k, n)
    ensures f == Binary ==> |r| == k.width
    ensures f == Text ==> |r| >= 2 && r[|r| - 1] == SEMICOLON
  {
    if f == Binary then RawBytes(k, n) else ToString(n) + [SEMICOLON]
  }

  lemma ScalarBytesBinary(k: IntKind, n: int)
    requires ValidKind(k) && InRange(k, n)
    ensures ScalarBytes(Binary, k, n) == RawBytes(k, n)
  {
  }

  /** `write(const std::string&)`: a `size_t` length and the raw bytes, or a
      quoted, escaped literal followed by the separator `"; "`. */
  function StringBytes(f: Format, s: seq<byte>): (r: seq<byte>)
    requires |s| < SizeLimit
    ensures f == Binary ==> |r| == 8 + |s|
    ensures f == Text ==> |r| >= |s| + 4 && r[0] == QUOTE
  {
    if f == Binary then RawBytes(SizeT, |s|) + s
    else [QUOTE] + Escape(s) + [QUOTE, SEMICOLON, SPACE]
  }

  /** Everything `write(v)` appends, with the serializer's `indent` at
      `depth` when the call starts. */
  function Encode(f: Format, pretty: bool, depth: nat, v: Value): (r: seq<byte>)
    requires WellFormed(v)
    ensures |r| >= 1
    ensures f == Binary && v.Scalar? ==> |r| == v.kind.width
    ensures f == Binary && v.Char? ==> |r| == 1
    ensures f == Binary && v.Str? ==> |r| == 8 + |v.s|
    ensures f == Binary && v.Vector? ==> |r| >= 8 + |v.items|
    ensures f == Text && v.Vector? ==> r[0] == LBRACKET && r[|r| - 1] == RBRACKET
    decreases v, 1, 0
  {
    match v
    case Scalar(k, n) => ScalarBytes(f, k, n)
    case Char(c) => [c]
    case Str(s) => StringBytes(f, s)
    case Vector(e, items) =>
      if f == Binary then
        RawBytes(SizeT, |items|) + ItemsBytes(f, pretty, depth, e, items, 0)
      else if items == [] then
        [LBRACKET, RBRACKET]
      else
        [LBRACKET] + LineBreak(pretty) + ItemsBytes(f, pretty, depth + 1, e, items, 0)
        + Indentation(pretty, depth) + [RBRACKET]
  }

  /** The bytes written for `items[i..]` by the vector loop, each item at
      `depth`; in text mode each sits on its own indented line when pretty. */
  function ItemsBytes(f: Format, pretty: bool, depth: nat, e: Shape, items: seq<Value>, i: nat): (r: seq<byte>)
    requires i <= |items|
    requires forall j :: 0 <= j < |items| ==> WellFormed(items[j])
    ensures |r| >= |items| - i
    decreases Vector(e, items), 0, |items| - i
  {
    if i == |items| then []
    else
      var item := Encode(f, pretty, depth, items[i]);
      (if f == Binary then item
       else Indentation(pretty, depth) + item + LineBreak(pretty))
      + ItemsBytes(f, pretty, depth, e, items, i + 1)
  }

  /** One step of the vector loop: item `i` comes first, then the rest. */
  lemma ItemsBytesUnfold(f: Format, pretty: bool, depth: nat, e: Shape, items: seq<Value>, i: nat)
    requires i < |items|
    requires forall j :: 0 <= j < |items| ==> WellFormed(items[j])
    ensures ItemsBytes(f, pretty, depth, e, items, i) ==
            (if f == Binary then Encode(f, pretty, depth, items[i])
             else Indentation(pretty, depth) + Encode(f, pretty, depth, items[i]) + LineBreak(pretty))
            + ItemsBytes(f, pretty, depth, e, items, i + 1)
  {
  }

  /** What one turn of the vector loop writes for an item at `depth`. */
  function ItemLine(f: Format, pretty: bool, depth: nat, v: Value): seq<byte>
    requires WellFormed(v)
  {
    if f == Binary then Encode(f, pretty, depth, v)
    else Indentation(pretty, depth) + Encode(f, pretty, depth, v) + LineBreak(pretty)
  }

  /** `ItemsBytesUnfold` with the item's line named. */
  lemma ItemsBytesStep(f: Format, pretty: bool, depth: nat, e: Shape, items: seq<Value>, i: nat)
    requires i < |items|
    requires forall j :: 0 <= j < |items| ==> WellFormed(items[j])
    ensures ItemsBytes(f, pretty, depth, e, items, i) ==
            ItemLine(f, pretty, depth, items[i]) + ItemsBytes(f, pretty, depth, e, items, i + 1)
  {
    ItemsBytesUnfold(f, pretty, depth, e, items, i);
  }

  /** The vector loop has nothing left to write after the last item. */
  lemma ItemsBytesEnd(f: Format, pretty: bool, depth: nat, e: Shape, items: seq<Value>)
    requires forall j :: 0 <= j < |items| ==> WellFormed(items[j])
    ensures ItemsBytes(f, pretty, depth, e, items, |items|) == []
  {
  }

  lemma EncodeStringText(pretty: bool, depth: nat, s: seq<byte>)
    requires |s| < SizeLimit
    ensures Encode(Text, pretty, depth, Str(s)) == [QUOTE] + Escape(s) + [QUOTE, SEMICOLON, SPACE]
  {
  }

  lemma EncodeVectorBinary(pretty: bool, depth: nat, e: Shape, items: seq<Value>)
    requires WellFormed(Vector(e, items))
    ensures Encode(Binary, pretty, depth, Vector(e, items))
            == RawBytes(SizeT, |items|) + ItemsBytes(Binary, pretty, depth, e, items, 0)
  {
  }

  lemma EncodeVectorEmpty(pretty: bool, depth: nat, e: Shape)
    requires ValidShape(e)
    ensures Encode(Text, pretty, depth, Vector(e, [])) == [LBRACKET, RBRACKET]
  {
  }

  lemma EncodeVectorText(pretty: bool, depth: nat, e: Shape, items: seq<Value>)
    requires WellFormed(Vector(e, items)) && items != []
    ensures Encode(Text, pretty, depth, Vector(e, items))
            == [LBRACKET] + LineBreak(pretty) + ItemsBytes(Text, pretty, depth + 1, e, items, 0)
               + Indentation(pretty, depth) + [RBRACKET]
  {
  }

  /** The text layout of a non-empty vector, assembled in the order the
      serializer writes it: bracket and line break, the items one level
      deeper, the closing line's tabs, the bracket. */
  lemma TextVectorWritten(start: seq<byte>, head: seq<byte>, filled: seq<byte>, indented: seq<byte>,
                          closed: seq<byte>, pretty: bool, depth: nat, e: Shape, items: seq<Value>)
    requires WellFormed(Vector(e, items)) && items != []
    requires head == start + [LBRACKET] + LineBreak(pretty)
    requires filled == head + ItemsBytes(Text, pretty, depth + 1, e, items, 0)
    requires indented == filled + Indentation(pretty, depth)
    requires closed == indented + [RBRACKET]
    ensures closed == start + Encode(Text, pretty, depth, Vector(e, items))
  {
    EncodeVectorText(pretty, depth, e, items);
    hide *;
    AppendAssoc5(start, [LBRACKET], LineBreak(pretty), ItemsBytes(Text, pretty, depth + 1, e, items, 0),
                 Indentation(pretty, depth), [RBRACKET]);
  }

  /** The text layout of a string, assembled in the order the serializer
      writes it: the opening quote, the escaped bytes, then `"; `. */
  lemma TextStringWritten(start: seq<byte>, head: seq<byte>, closed: seq<byte>, s: seq<byte>)
    requires |s| < SizeLimit
    requires head == start + [QUOTE]
    requires closed == head + Escape(s[..|s|]) + [QUOTE, SEMICOLON, SPACE]
    ensures closed == start + StringBytes(Text, s)
  {
    assert s[..|s|] == s;
  }
}
