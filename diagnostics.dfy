/** `deserializer::_error_char`: the error raised on an unexpected byte. It
    records the cursor and two windows of the buffer taken with `context`:
    up to ten bytes "before" (`context(10, 0, 0)`) and up to ten bytes
    "after" the offending byte (`context(0, 10, 1)`). The message prints the
    windows around the byte on one line and a `|` on the next, indented by
    the length of the "before" window. */
module Diagnostics {
  import opened Bytes
  import opened Errors
  import opened Targets

  /** How many bytes of context each window asks for. */
  const ContextWidth: nat := 10

  /** The error `_error_char(ch, ...)` raises with the cursor at `pos`. */
  function ErrorAt(data: seq<byte>, pos: nat, ch: byte, expected: Expected): (e: Error)
    requires pos <= |data|
    ensures e.Unexpected? && e.ch == ch && e.expected == expected && e.pos == pos
    ensures |e.before| <= ContextWidth && |e.after| <= ContextWidth
  {
    Unexpected(ch, expected, pos,
               Window(data, pos, ContextWidth, 0, 0),
               Window(data, pos, 0, ContextWidth, 1))
  }

  /** The two lines that end the message: the windows around the byte, then
      the caret line. */
  function Diagram(e: Error): (r: seq<byte>)
    requires e.Unexpected?
    ensures |r| == 2 * |e.before| + |e.after| + 3
    ensures r[..|e.before| + 1 + |e.after|] == e.before + [e.ch] + e.after
    ensures r[|e.before| + 1 + |e.after|] == LF
    ensures r[|e.before| + 2 + |e.after| + |e.before|] == PIPE
    ensures forall i :: |e.before| + 2 + |e.after| <= i < |r| - 1 ==> r[i] == SPACE
  {
    e.before + [e.ch] + e.after + [LF] + Repeat(SPACE, |e.before|) + [PIPE]
  }

  /** The "after" window is the ten bytes that follow the offending byte
      (fewer near the end), and nothing at the end of the buffer. */
  lemma AfterWindow(data: seq<byte>, pos: nat, ch: byte, expected: Expected)
    requires pos <= |data|
    ensures pos < |data| ==>
              ErrorAt(data, pos, ch, expected).after == data[pos + 1..Min(pos + 1 + ContextWidth, |data|)]
    ensures pos == |data| ==> ErrorAt(data, pos, ch, expected).after == []
  {
    WindowSlice(data, pos, 0, ContextWidth, 1);
  }

  /** Ten or more bytes into the buffer, the "before" window is exactly the
      ten bytes before the cursor, so the first line is a contiguous slice
      of the buffer with the offending byte in column ten, above the `|`. */
  lemma CaretAligned(data: seq<byte>, pos: nat, expected: Expected)
    requires ContextWidth <= pos < |data|
    ensures var e := ErrorAt(data, pos, data[pos], expected);
            e.before == data[pos - ContextWidth..pos] &&
            e.before + [e.ch] + e.after == data[pos - ContextWidth..Min(pos + 1 + ContextWidth, |data|)] &&
            |e.before| == ContextWidth
  {
    var e := ErrorAt(data, pos, data[pos], expected);
    AfterWindow(data, pos, data[pos], expected);
    WindowSlice(data, pos, ContextWidth, 0, 0);
    assert e.before == data[pos - ContextWidth..pos];
    assert data[pos - ContextWidth..Min(pos + 1 + ContextWidth, |data|)]
        == data[pos - ContextWidth..pos] + [data[pos]] + data[pos + 1..Min(pos + 1 + ContextWidth, |data|)];
  }

  /** Fewer than ten bytes into the buffer, `context(10, 0, 0)` is anchored
      at the start and keeps its width, so the "before" window runs past the
      cursor: it already holds the offending byte and the caret is indented
      further than the byte's column. */
  lemma CaretNearStart(data: seq<byte>, pos: nat, expected: Expected)
    requires pos < ContextWidth && pos < |data|
    ensures var e := ErrorAt(data, pos, data[pos], expected);
            e.before == data[..Min(ContextWidth, |data|)] &&
            |e.before| > pos && e.before[pos] == e.ch
  {
    WindowSlice(data, pos, ContextWidth, 0, 0);
  }

  /** Reading a string from `abc`: the window before the `a` is `abc`
      itself, the window after is `bc`, and the caret sits under the second
      `a` instead of the first. */
  lemma CaretNearStartExample()
    ensures var data := [97, 98, 99];
            var e := ErrorAt(data, 0, 97, Quote);
            e.before == [97, 98, 99] && e.after == [98, 99] &&
            Diagram(e) == [97, 98, 99, 97, 98, 99, LF, SPACE, SPACE, SPACE, PIPE]
  {
    var data: seq<byte> := [97, 98, 99];
    var e := ErrorAt(data, 0, 97, Quote);
    WindowSlice(data, 0, ContextWidth, 0, 0);
    WindowSlice(data, 0, 0, ContextWidth, 1);
    assert e.before == data[..3];
    assert e.after == data[1..3];
  }
}
