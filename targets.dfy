/** `buffer_target`: the in-memory byte medium the codec writes to and reads
    from. Writes append at the end; reads consume from a cursor that only moves
    forward; the remaining operations are queries that change nothing. */
module Targets {
  import opened Bytes
  import opened Errors

  function Min(a: int, b: int): int {
    if a < b then a else b
  }

  /** The byte at `pos`, or `'\0'` past the end. */
  function PeekAt(data: seq<byte>, pos: nat): (r: byte)
    ensures pos < |data| ==> r == data[pos]
    ensures pos >= |data| ==> r == NUL && r != QUOTE && r != LBRACKET && r != RBRACKET
  {
    if pos < |data| then data[pos] else NUL
  }

  /** Where a `context` window is centred: the cursor moved by `offset`, held
      within `[0, |data|]`. */
  function Center(pos: nat, offset: int, size: nat): (c: nat)
    requires pos <= size
    ensures c <= size
    ensures offset >= 0 ==> c == Min(pos + offset, size)
    ensures offset < 0 ==> c == if pos + offset < 0 then 0 else pos + offset
  {
    if offset < 0 && -offset > pos then 0
    else if offset < 0 then pos + offset
    else Min(pos + offset, size)
  }

  /** `buffer_target::context(before, after, offset)` on the bytes `data` with
      the cursor at `pos`: a contiguous slice of at most `before + after`
      bytes that never leaves the buffer. Normally it is the `before` bytes
      preceding the centre and up to `after` bytes from the centre on; when
      fewer than `before` bytes precede the centre, the window is anchored at
      offset 0 and keeps its full width. */
  function Window(data: seq<byte>, pos: nat, before: nat, after: nat, offset: int): (r: seq<byte>)
    requires pos <= |data|
    ensures |data| == 0 ==> r == []
    ensures |r| <= before + after
  {
    if |data| == 0 then []
    else
      var center := Center(pos, offset, |data|);
      var start := if center < before then 0 else center - before;
      var end := if start == 0 then Min(before + after, |data|) else Min(center + after, |data|);
      data[start..end]
  }

  /** Which bytes a window holds: a contiguous slice of the buffer, anchored
      at the start when fewer than `before` bytes precede the centre. */
  lemma WindowSlice(data: seq<byte>, pos: nat, before: nat, after: nat, offset: int)
    requires pos <= |data|
    ensures |data| > 0 && Center(pos, offset, |data|) < before ==>
              Window(data, pos, before, after, offset) == data[..Min(before + after, |data|)]
    ensures |data| > 0 && Center(pos, offset, |data|) >= before ==>
              var c := Center(pos, offset, |data|);
              Window(data, pos, before, after, offset) == data[c - before..c] + data[c..Min(c + after, |data|)]
  {
    if |data| > 0 {
      var center := Center(pos, offset, |data|);
      var start := if center < before then 0 else center - before;
      var end := if start == 0 then Min(before + after, |data|) else Min(center + after, |data|);
      assert data[start..end] == data[start..center] + data[center..end] by {
        if start > 0 { assert start <= center <= end; }
      }
    }
  }

  class BufferTarget {
    var data: seq<byte>
    var readPos: nat

    /** The cursor never passes the end of the stored bytes. */
    ghost predicate Valid()
      reads this
    {
      readPos <= |data|
    }

    constructor ()
      ensures Valid()
      ensures data == [] && readPos == 0
    {
      data := [];
      readPos := 0;
    }

    /** Appends `bytes`; what was stored and the cursor stay as they were. */
    method Write(bytes: seq<byte>)
      requires Valid()
      modifies this
      ensures Valid()
      ensures data == old(data) + bytes
      ensures readPos == old(readPos)
    {
      data := data + bytes;
    }

    /** Consumes `n` bytes, or raises "Buffer overflow" and changes nothing
        when fewer than `n` remain. */
    method Read(n: nat) returns (r: Result<seq<byte>>)
      requires Valid()
      modifies this
      ensures Valid()
      ensures data == old(data)
      ensures r.Success? <==> old(readPos) + n <= |data|
      ensures r.Success? ==> r.value == data[old(readPos)..old(readPos) + n]
      ensures r.Success? ==> readPos == old(readPos) + n
      ensures r.Failure? ==> r.error == Overflow && readPos == old(readPos)
    {
      if readPos + n > |data| {
        return Failure(Overflow);
      }
      r := Success(data[readPos..readPos + n]);
      readPos := readPos + n;
    }

    /** The next unread byte, or `'\0'` at the end. */
    function Peek(): (c: byte)
      reads this
      ensures readPos < |data| ==> c == data[readPos]
      ensures readPos >= |data| ==> c == NUL
    {
      PeekAt(data, readPos)
    }

    function Eof(): (b: bool)
      reads this
      ensures b <==> readPos >= |data|
    {
      readPos >= |data|
    }

    function Tell(): (p: nat)
      reads this
      ensures p == readPos
    {
      readPos
    }

    /** A diagnostic window around the cursor; as a function it cannot move
        the cursor or change the bytes. */
    function Context(before: nat, after: nat, offset: int): (r: seq<byte>)
      reads this
      requires Valid()
      ensures r == Window(data, readPos, before, after, offset)
      ensures |r| <= before + after
    {
      Window(data, readPos, before, after, offset)
    }
  }
}
