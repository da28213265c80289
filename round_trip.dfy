/** What the deserializer makes of what the serializer wrote: the text
    layout reads back every value whose parts survive separator skipping,
    the binary layout reads back every value that is not a vector, and the
    places where the two sides disagree are pinned down by name. */
module RoundTrip {
  import opened Bytes
  import opened Errors
  import opened NativeLayout
  import opened Decimal
  import opened FormatType
  import opened Values
  import opened Encoding
  import opened Targets
  import opened Diagnostics
  import opened Decoding

  /** A value the text reader gives back unchanged: integers fit a `long
      long` (what `std::stoll` accepts), characters are not separators, and
      vector items are not the character `]`, which would end the vector. */
  predicate TextSafe(v: Value) {
    match v
    case Scalar(_, n) => LLongMin <= n <= LLongMax
    case Char(c) => !IsSeparator(c)
    case Str(_) => true
    case Vector(_, items) =>
      forall i :: 0 <= i < |items| ==> TextSafe(items[i]) && items[i] != Char(RBRACKET)
  }

  lemma WellFormedShape(v: Value)
    requires WellFormed(v)
    ensures ValidShape(ShapeOf(v))
  {
  }

  /** Separators between `p` and `k` are skipped as one run. */
  lemma {:induction false} SkipEndOver(data: seq<byte>, p: nat, k: nat)
    requires p <= k <= |data|
    requires forall j :: p <= j < k ==> IsSeparator(data[j])
    ensures SkipEnd(data, p) == SkipEnd(data, k)
    decreases k - p
  {
    if p < k {
      SkipEndOver(data, p + 1, k);
    }
  }

  /** A text encoding starts with a byte that is neither a separator nor a
      `]` (unless it is the character `]` itself). */
  lemma FirstByte(v: Value, pretty: bool, d: nat)
    requires WellFormed(v) && TextSafe(v)
    ensures var enc := Encode(Text, pretty, d, v);
            |enc| > 0 && !IsSeparator(enc[0]) && (enc[0] == RBRACKET ==> v == Char(RBRACKET))
  {
    match v
    case Scalar(k, n) =>
      assert Encode(Text, pretty, d, v) == ToString(n) + [SEMICOLON];
    case Char(c) =>
    case Str(s) =>
    case Vector(e, items) =>
  }

  /** The lexer takes a token that ends in `;` and holds a `-` at most in
      its first byte. */
  lemma {:induction false} LexToken(data: seq<byte>, start: nat, pos: nat, end: nat)
    requires start <= pos <= end < |data| && data[end] == SEMICOLON
    requires forall i :: pos <= i < end ==> data[i] != SPACE && data[i] != SEMICOLON
    requires forall i :: pos <= i < end && i > start ==> data[i] != MINUS
    ensures Lex(data, start, pos) == Ok(data[start..end], end)
    decreases end - pos
  {
    if pos < end {
      LexToken(data, start, pos + 1, end);
    }
  }

  /** The lexer reads back the decimal text of an integer. */
  lemma LexToString(data: seq<byte>, k: nat, x: int)
    requires HoldsAt(data, k, ToString(x) + [SEMICOLON])
    ensures Lex(data, k, k) == Ok(ToString(x), k + |ToString(x)|)
  {
    var t := ToString(x);
    HoldsAtSplit(data, k, t, [SEMICOLON]);
    HoldsAtIndex(data, k + |t|, [SEMICOLON], 0);
    forall i | k <= i < k + |t|
      ensures data[i] != SPACE && data[i] != SEMICOLON && (i > k ==> data[i] != MINUS)
    {
      HoldsAtIndex(data, k, t, i - k);
    }
    LexToken(data, k, k, k + |t|);
    HoldsAtSlice(data, k, t);
  }

  /** The unescaping loop reads back an escaped string up to the quote
      that follows it. */
  lemma {:induction false} UnescapeEscape(data: seq<byte>, k: nat, s: seq<byte>, acc: seq<byte>)
    requires HoldsAt(data, k, Escape(s)) && k + |Escape(s)| < |data| && data[k + |Escape(s)|] == QUOTE
    ensures Unescape(data, k, false, acc) == Ok(acc + s, k + |Escape(s)| + 1)
    decreases |s|
  {
    hide *;
    EscapeUnfold(s);
    if s == [] {
      assert acc + s == acc;
      UnescapeClose(data, k, acc);
    } else {
      var c := s[0];
      var head := EscapeByte(c);
      var rest := Escape(s[1..]);
      HoldsAtSplit(data, k, head, rest);
      assert k + |Escape(s)| == k + |head| + |rest|;
      UnescapeEscape(data, k + |head|, s[1..], acc + [c]);
      assert acc + [c] + s[1..] == acc + s;
      UnescapeByte(data, k, c, acc);
    }
  }

  /** The unescaping loop stops at an unescaped quote. */
  lemma UnescapeClose(data: seq<byte>, k: nat, acc: seq<byte>)
    requires k < |data| && data[k] == QUOTE
    ensures Unescape(data, k, false, acc) == Ok(acc, k + 1)
  {
  }

  /** One escaped byte read back by the unescaping loop. */
  lemma UnescapeByte(data: seq<byte>, k: nat, c: byte, acc: seq<byte>)
    requires HoldsAt(data, k, EscapeByte(c)) && k + |EscapeByte(c)| <= |data|
    ensures Unescape(data, k, false, acc) == Unescape(data, k + |EscapeByte(c)|, false, acc + [c])
  {
    HoldsAtIndex(data, k, EscapeByte(c), 0);
    if c == QUOTE || c == BACKSLASH {
      HoldsAtIndex(data, k, EscapeByte(c), 1);
    }
  }

  /** Bytes of layout made only of separators are skipped as one run. */
  lemma SkipLayout(data: seq<byte>, k: nat, s: seq<byte>)
    requires HoldsAt(data, k, s)
    requires forall i :: 0 <= i < |s| ==> IsSeparator(s[i])
    ensures SkipEnd(data, k) == SkipEnd(data, k + |s|)
  {
    forall j | k <= j < k + |s|
      ensures IsSeparator(data[j])
    {
      HoldsAtIndex(data, k, s, j - k);
    }
    SkipEndOver(data, k, k + |s|);
  }

  lemma IndentationSeparators(pretty: bool, n: nat)
    ensures forall i :: 0 <= i < |Indentation(pretty, n)| ==> IsSeparator(Indentation(pretty, n)[i])
  {
  }

  lemma LineBreakSeparators(pretty: bool)
    ensures forall i :: 0 <= i < |LineBreak(pretty)| ==> IsSeparator(LineBreak(pretty)[i])
  {
  }

  lemma SkipEndIdempotent(data: seq<byte>, p: nat)
    requires p <= |data|
    ensures SkipEnd(data, SkipEnd(data, p)) == SkipEnd(data, p)
  {
  }

  lemma Snoc(items: seq<Value>, j: nat)
    requires j < |items|
    ensures items[..j] + [items[j]] == items[..j + 1]
  {
  }

  lemma WellFormedConforms(v: Value)
    requires WellFormed(v)
    ensures Conforms(v, ShapeOf(v))
  {
    match v
    case Scalar(_, _) =>
    case Char(_) =>
    case Str(_) =>
    case Vector(e, items) =>
      forall i | 0 <= i < |items|
        ensures Conforms(items[i], e)
      {
        WellFormedConforms(items[i]);
      }
  }

  /** Text round trip. The encoding of `v` sits at offset `k` of the
      buffer, and the cursor `p` is at or before it with only separators in
      between: the reader returns `v` and stops after the separators that
      follow the encoding. Whatever follows the encoding does not matter. */
  lemma TextRoundTrip(v: Value, pretty: bool, d: nat, data: seq<byte>, p: nat, k: nat)
    requires WellFormed(v) && TextSafe(v)
    requires p <= |data| && HoldsAt(data, k, Encode(Text, pretty, d, v)) && SkipEnd(data, p) == k
    ensures ValidShape(ShapeOf(v))
    ensures Decode(Text, ShapeOf(v), data, p) == Ok(v, SkipEnd(data, k + |Encode(Text, pretty, d, v)|))
    decreases v, 2
  {
    hide Encode, ItemsBytes, DecodeScalar, DecodeChar, DecodeString, DecodeVector, DecodeItems,
         WellFormed, TextSafe, Conforms, HoldsAt, SkipEnd;
    WellFormedShape(v);
    match v
    case Scalar(kind, n) => ScalarRoundTrip(kind, n, pretty, d, data, p, k);
    case Char(c) => CharRoundTrip(c, pretty, d, data, p, k);
    case Str(s) => StringRoundTrip(s, pretty, d, data, p, k);
    case Vector(e, items) =>
      WellFormedConforms(v);
      VectorRoundTrip(e, items, pretty, d, data, p, k);
  }

  lemma ScalarRoundTrip(kind: IntKind, n: int, pretty: bool, d: nat, data: seq<byte>, p: nat, k: nat)
    requires WellFormed(Scalar(kind, n)) && TextSafe(Scalar(kind, n))
    requires p <= |data| && HoldsAt(data, k, Encode(Text, pretty, d, Scalar(kind, n))) && SkipEnd(data, p) == k
    ensures DecodeScalar(Text, kind, data, p)
            == Ok(Scalar(kind, n), SkipEnd(data, k + |Encode(Text, pretty, d, Scalar(kind, n))|))
  {
    var t := ToString(n);
    var enc := Encode(Text, pretty, d, Scalar(kind, n));
    assert enc == t + [SEMICOLON];
    DecodeScalarText(kind, data, p);
    LexToString(data, k, n);
    StoLLOfToString(n);
    HoldsAtSplit(data, k, t, [SEMICOLON]);
    HoldsAtIndex(data, k + |t|, [SEMICOLON], 0);
    SkipEndOver(data, k + |t|, k + |enc|);
  }

  lemma CharRoundTrip(c: byte, pretty: bool, d: nat, data: seq<byte>, p: nat, k: nat)
    requires p <= |data| && HoldsAt(data, k, Encode(Text, pretty, d, Char(c))) && SkipEnd(data, p) == k
    ensures DecodeChar(Text, data, p) == Ok(Char(c), SkipEnd(data, k + |Encode(Text, pretty, d, Char(c))|))
  {
    assert Encode(Text, pretty, d, Char(c)) == [c];
    HoldsAtIndex(data, k, [c], 0);
  }

  /** Where the parts of a string literal `"esc"; ` sit in the buffer. */
  lemma QuotedLayout(data: seq<byte>, k: nat, esc: seq<byte>)
    requires HoldsAt(data, k, [QUOTE] + esc + [QUOTE, SEMICOLON, SPACE])
    ensures var close := k + 1 + |esc|;
            data[k] == QUOTE && HoldsAt(data, k + 1, esc) && close < |data| && data[close] == QUOTE &&
            SkipEnd(data, close + 1) == SkipEnd(data, close + 3)
  {
    var tail: seq<byte> := [QUOTE, SEMICOLON, SPACE];
    HoldsAtSplit(data, k, [QUOTE] + esc, tail);
    HoldsAtSplit(data, k, [QUOTE], esc);
    HoldsAtIndex(data, k, [QUOTE], 0);
    var close := k + 1 + |esc|;
    assert tail == [QUOTE] + [SEMICOLON, SPACE];
    HoldsAtSplit(data, close, [QUOTE], [SEMICOLON, SPACE]);
    HoldsAtIndex(data, close, [QUOTE], 0);
    SkipLayout(data, close + 1, [SEMICOLON, SPACE]);
  }

  lemma StringRoundTrip(s: seq<byte>, pretty: bool, d: nat, data: seq<byte>, p: nat, k: nat)
    requires WellFormed(Str(s))
    requires p <= |data| && HoldsAt(data, k, Encode(Text, pretty, d, Str(s))) && SkipEnd(data, p) == k
    ensures DecodeString(Text, data, p) == Ok(Str(s), SkipEnd(data, k + |Encode(Text, pretty, d, Str(s))|))
  {
    EncodeStringText(pretty, d, s);
    hide *;
    QuotedLayout(data, k, Escape(s));
    UnescapeEscape(data, k + 1, s, []);
    assert [] + s == s;
    PeekIndex(data, k);
    DecodeStringText(data, p);
  }

  lemma PeekHolds(data: seq<byte>, k: nat, s: seq<byte>, i: nat)
    requires HoldsAt(data, k, s) && i < |s|
    ensures PeekAt(data, k + i) == s[i]
  {
  }

  lemma PeekIndex(data: seq<byte>, i: nat)
    requires i < |data|
    ensures PeekAt(data, i) == data[i]
  {
  }

  /** The bytes `[`, separators `lf`, `body`, `tabs`, `]` laid out from `k`. */
  lemma BracketLayout(data: seq<byte>, k: nat, lf: seq<byte>, body: seq<byte>, tabs: seq<byte>)
    requires HoldsAt(data, k, [LBRACKET] + lf + body + tabs + [RBRACKET])
    requires forall i :: 0 <= i < |lf| ==> IsSeparator(lf[i])
    ensures var m := k + 1 + |lf|;
            var close := m + |body| + |tabs|;
            data[k] == LBRACKET && HoldsAt(data, m, body) && HoldsAt(data, m + |body|, tabs) &&
            close < |data| && data[close] == RBRACKET &&
            SkipEnd(data, k + 1) == SkipEnd(data, m)
  {
    var open := [LBRACKET] + lf;
    HoldsAtSplit(data, k, open + body + tabs, [RBRACKET]);
    HoldsAtSplit(data, k, open + body, tabs);
    HoldsAtSplit(data, k, open, body);
    HoldsAtSplit(data, k, [LBRACKET], lf);
    HoldsAtIndex(data, k, [LBRACKET], 0);
    HoldsAtIndex(data, k + |open + body + tabs|, [RBRACKET], 0);
    SkipLayout(data, k + 1, lf);
  }

  /** The items of a vector the text reader gives back: each is a value of
      the element shape that reads back on its own and is not `]`. */
  predicate ItemsSafe(e: Shape, items: seq<Value>) {
    forall i :: 0 <= i < |items| ==>
      WellFormed(items[i]) && TextSafe(items[i]) && items[i] != Char(RBRACKET) &&
      ShapeOf(items[i]) == e && Conforms(items[i], e)
  }

  lemma ItemsSafeAt(e: Shape, items: seq<Value>, j: nat)
    requires j < |items| && ItemsSafe(e, items)
    ensures WellFormed(items[j]) && TextSafe(items[j]) && items[j] != Char(RBRACKET) && ShapeOf(items[j]) == e
    ensures forall i :: 0 <= i < |items| ==> WellFormed(items[i])
  {
  }

  lemma ItemsSafeWellFormed(e: Shape, items: seq<Value>)
    requires ItemsSafe(e, items)
    ensures forall i :: 0 <= i < |items| ==> WellFormed(items[i])
  {
  }

  lemma VectorSafe(e: Shape, items: seq<Value>)
    requires WellFormed(Vector(e, items)) && TextSafe(Vector(e, items))
    requires Conforms(Vector(e, items), VectorShape(e))
    ensures ValidShape(e) && ItemsSafe(e, items)
  {
  }

  lemma {:induction false} VectorRoundTrip(e: Shape, items: seq<Value>, pretty: bool, d: nat,
                                           data: seq<byte>, p: nat, k: nat)
    requires WellFormed(Vector(e, items)) && TextSafe(Vector(e, items))
    requires Conforms(Vector(e, items), VectorShape(e))
    requires p <= |data| && HoldsAt(data, k, Encode(Text, pretty, d, Vector(e, items))) && SkipEnd(data, p) == k
    ensures DecodeVector(Text, e, data, p)
            == Ok(Vector(e, items), SkipEnd(data, k + |Encode(Text, pretty, d, Vector(e, items))|))
    decreases Vector(e, items), 1
  {
    hide *;
    VectorSafe(e, items);
    DecodeVectorStart(Text, e, data, p);
    if items == [] {
      var enc := Encode(Text, pretty, d, Vector(e, items));
      EncodeVectorEmpty(pretty, d, e);
      PeekHolds(data, k, enc, 0);
      PeekHolds(data, k, enc, 1);
      DecodeItemsEnd(Text, e, data, k + 1, []);
    } else {
      ItemsSafeWellFormed(e, items);
      EncodeVectorText(pretty, d, e, items);
      LineBreakSeparators(pretty);
      BracketLayout(data, k, LineBreak(pretty), ItemsBytes(Text, pretty, d + 1, e, items, 0), Indentation(pretty, d));
      PeekIndex(data, k);
      var m := k + 1 + |LineBreak(pretty)|;
      var close := m + |ItemsBytes(Text, pretty, d + 1, e, items, 0)| + |Indentation(pretty, d)|;
      assert items[..0] == [];
      ItemsRoundTrip(e, items, pretty, d, data, k + 1, m, close, 0, []);
    }
  }

  /** Where item `j` sits among the vector's item bytes at depth `d`, and
      which separators surround it. */
  lemma ItemLayout(data: seq<byte>, m: nat, lead: seq<byte>, enc: seq<byte>, lf: seq<byte>, next: seq<byte>)
    requires HoldsAt(data, m, lead + enc + lf + next)
    requires forall i :: 0 <= i < |lead| ==> IsSeparator(lead[i])
    requires forall i :: 0 <= i < |lf| ==> IsSeparator(lf[i])
    ensures var k := m + |lead|;
            var after := k + |enc|;
            HoldsAt(data, k, enc) &&
            SkipEnd(data, m) == SkipEnd(data, k) &&
            SkipEnd(data, after) == SkipEnd(data, after + |lf|) &&
            HoldsAt(data, after + |lf|, next)
  {
    HoldsAtSplit(data, m, lead + enc + lf, next);
    HoldsAtSplit(data, m, lead + enc, lf);
    HoldsAtSplit(data, m, lead, enc);
    SkipLayout(data, m, lead);
    SkipLayout(data, m + |lead| + |enc|, lf);
  }

  /** One turn of the item loop over an item laid out at `k`, with only
      separators between the cursor and it: the item is read back. */
  lemma {:induction false} ItemStep(e: Shape, item: Value, pretty: bool, d: nat, data: seq<byte>,
                                    q: nat, k: nat, acc: seq<Value>)
    requires WellFormed(item) && TextSafe(item) && item != Char(RBRACKET) && ShapeOf(item) == e
    requires q <= |data| && HoldsAt(data, k, Encode(Text, pretty, d, item)) && SkipEnd(data, q) == SkipEnd(data, k)
    ensures ValidShape(e)
    ensures DecodeItems(Text, e, data, q, acc)
            == DecodeItems(Text, e, data, SkipEnd(data, k + |Encode(Text, pretty, d, item)|), acc + [item])
    decreases item, 3
  {
    WellFormedShape(item);
    FirstByte(item, pretty, d);
    HoldsAtIndex(data, k, Encode(Text, pretty, d, item), 0);
    assert SkipEnd(data, k) == k;
    assert PeekAt(data, q) != RBRACKET by {
      if q < k {
        SkipEndSeparators(data, q);
        assert IsSeparator(data[q]);
      }
    }
    DecodeItemsStep(Text, e, data, q, acc);
    TextRoundTrip(item, pretty, d, data, q, k);
  }

  /** One turn of the item loop, as positions: item `j` laid out from `m`
      is read from `q`, and the cursor `q'` it leaves is as far into the
      separators as the layout `m'` of the remaining items. */
  lemma ItemsAdvance(e: Shape, items: seq<Value>, pretty: bool, d: nat, data: seq<byte>,
                     q: nat, m: nat, j: nat, acc: seq<Value>) returns (q': nat, m': nat)
    requires ValidShape(e) && j < |items| && ItemsSafe(e, items)
    requires q <= |data| && HoldsAt(data, m, ItemsBytes(Text, pretty, d, e, items, j))
    requires SkipEnd(data, q) == SkipEnd(data, m)
    ensures HoldsAt(data, m', ItemsBytes(Text, pretty, d, e, items, j + 1))
    ensures m' + |ItemsBytes(Text, pretty, d, e, items, j + 1)| == m + |ItemsBytes(Text, pretty, d, e, items, j)|
    ensures q' <= |data| && SkipEnd(data, q') == SkipEnd(data, m') && q' == SkipEnd(data, q')
    ensures DecodeItems(Text, e, data, q, acc) == DecodeItems(Text, e, data, q', acc + [items[j]])
    decreases items[j], 4
  {
    hide *;
    ItemsSafeAt(e, items, j);
    ItemsBytesUnfold(Text, pretty, d, e, items, j);
    IndentationSeparators(pretty, d);
    LineBreakSeparators(pretty);
    ItemLayout(data, m, Indentation(pretty, d), Encode(Text, pretty, d, items[j]), LineBreak(pretty),
               ItemsBytes(Text, pretty, d, e, items, j + 1));
    var k := m + |Indentation(pretty, d)|;
    var after := k + |Encode(Text, pretty, d, items[j])|;
    m' := after + |LineBreak(pretty)|;
    q' := SkipEnd(data, after);
    ItemStep(e, items[j], pretty, d, data, q, k, acc);
    SkipEndIdempotent(data, after);
  }

  /** The last turn of the item loop: only the closing line's tabs lie
      between the cursor and the `]`. */
  lemma ItemsClose(e: Shape, pretty: bool, d: nat, data: seq<byte>, q: nat, m: nat, close: nat, acc: seq<Value>)
    requires ValidShape(e)
    requires q <= |data| && HoldsAt(data, m, Indentation(pretty, d)) && close == m + |Indentation(pretty, d)|
    requires close < |data| && data[close] == RBRACKET
    requires SkipEnd(data, q) == SkipEnd(data, m) && q == SkipEnd(data, q)
    ensures DecodeItems(Text, e, data, q, acc) == Ok(Vector(e, acc), SkipEnd(data, close + 1))
  {
    IndentationSeparators(pretty, d);
    SkipLayout(data, m, Indentation(pretty, d));
    assert SkipEnd(data, close) == close;
    DecodeItemsEnd(Text, e, data, q, acc);
  }

  /** The item loop reads the remaining items `items[j..]`, laid out from
      offset `m`, and the closing bracket at `close`. The cursor `q` is
      either before the next item with only separators ahead of it, or
      (after the last item) on the `]`. */
  lemma {:induction false} ItemsRoundTrip(e: Shape, items: seq<Value>, pretty: bool, d: nat,
                                          data: seq<byte>, q: nat, m: nat, close: nat, j: nat, acc: seq<Value>)
    requires ValidShape(e) && ItemsSafe(e, items)
    requires j <= |items| && q <= |data| && acc == items[..j]
    requires HoldsAt(data, m, ItemsBytes(Text, pretty, d + 1, e, items, j))
    requires var c := m + |ItemsBytes(Text, pretty, d + 1, e, items, j)|;
             HoldsAt(data, c, Indentation(pretty, d)) && close == c + |Indentation(pretty, d)|
    requires close < |data| && data[close] == RBRACKET
    requires SkipEnd(data, q) == SkipEnd(data, m)
    requires j == |items| ==> q == SkipEnd(data, q)
    ensures DecodeItems(Text, e, data, q, acc) == Ok(Vector(e, items), SkipEnd(data, close + 1))
    decreases Vector(e, items), 0, |items| - j
  {
    hide *;
    if j == |items| {
      assert acc == items;
      ItemsSafeWellFormed(e, items);
      ItemsBytesEnd(Text, pretty, d + 1, e, items);
      ItemsClose(e, pretty, d, data, q, m, close, acc);
    } else {
      var q', m' := ItemsAdvance(e, items, pretty, d + 1, data, q, m, j, acc);
      Snoc(items, j);
      ItemsRoundTrip(e, items, pretty, d, data, q', m', close, j + 1, acc + [items[j]]);
    }
  }
}
