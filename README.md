# mser codec core, modelled in Dafny

mser is a small C++ serialization library. A `serializer` appends values to a
target and a `deserializer` reads them back. The values are fixed-width
integers, `char`, `std::string` and `std::vector` of these, nested to any
depth. There are two layouts:

- **binary**: the raw bytes of each integer (`sizeof(T)` of them), a `size_t`
  length prefix before a string's bytes or a vector's items.
- **text**: an integer's decimal digits and `;`; a raw `char`; a string as
  `"…"; ` with `"` and `\` escaped; a vector as `[…]`. In pretty mode each
  item sits on its own line, indented by one tab per nesting level.

The target modelled is `buffer_target`, an in-memory byte vector. It is
append-only and has a read cursor that only moves forward.

The model is layered as follows.

- `Targets.BufferTarget` is a class with fields `data` and `readPos`. It has
  `Write`, `Read`, `Peek`, `Eof`, `Tell` and `Context`. `Context`'s window
  arithmetic is the function `Window`.
- `Serializer.Serializer` and `Deserializer.Deserializer` are classes over a
  `BufferTarget`. Their methods mirror the `write` and `read` overloads, loop
  by loop. The serializer's `indent` field is updated in place.
- Each method is proved against a pure specification function:
  - `Encoding.Encode`: every byte a `write` appends, given the format, the
    pretty flag and the current depth;
  - `Decoding.Decode` and its parts: the value or the error a `read`
    produces, together with the cursor it leaves, after success and after
    failure alike.
- Exceptions become the `Error` datatype:
  - `Overflow` is `buffer_target::read`'s "Buffer overflow";
  - `Unexpected` is `_error_char`, carrying the byte, the cursor and the two
    context windows;
  - `InvalidArgument` and `OutOfRange` come from `std::stoll`.
- The properties are lemmas:
  - the text round trip for every value whose parts survive separator
    skipping;
  - the binary round trip for every non-vector value;
  - where reader and writer part ways: binary vectors, `uint64_t` values
    above `LLONG_MAX`, separator characters, a `]` inside a `vector<char>`,
    and the caret of `_error_char` near the start of the buffer;
  - a set of worked inputs.

Layout of the files:

- `bytes.dfy`: bytes and the grammar's ASCII constants.
- `errors.dfy`: the errors and the two result types.
- `format_type.dfy`: `format_type`.
- `native_layout.dfy`: two's complement bytes and narrowing.
- `decimal.dfy`: `std::to_string` and `std::stoll`.
- `values.dfy`: values and shapes.
- `encoding.dfy`: the writer's specification.
- `targets.dfy`: `buffer_target`.
- `serializer.dfy`: the `serializer` class.
- `diagnostics.dfy`: `_error_char`.
- `decoding.dfy`: the reader's specification.
- `deserializer.dfy`: the `deserializer` class.
- `round_trip.dfy`: the text round trip.
- `properties.dfy`: whole-codec properties and examples.

An integer in text is followed by `;` alone, with no space after it, so
`{{1, 2, 3}, {4, 5}}` in compact text is `[[1;2;3;][4;5;]]`. Strings are
followed by `"; `, with a space.

## Model

| member | source | states |
|---|---|---|
| Targets.PeekAt | include/mser/targets.hpp:39-45 | The byte at the cursor, or `'\0'` past the end. The end byte is none of `"`, `[`, `]`, so the reader's checks for them fail there. |
| Targets.Center | include/mser/targets.hpp:58-64 | The window's centre never lies past the end of the buffer. |
| Targets.Window | include/mser/targets.hpp:54-78 | A context window is empty for an empty buffer and never longer than `before + after`. |
| Targets.WindowSlice | include/mser/targets.hpp:66-78 | If fewer than `before` bytes precede the centre, the window is the buffer's first `min(before + after, size)` bytes. Otherwise it is the `before` bytes ending at the centre followed by at most `after` bytes from the centre on. |
| Targets.BufferTarget.constructor | include/mser/targets.hpp:20-23 | A new target is empty, with the cursor at 0. |
| Targets.BufferTarget.Write | include/mser/targets.hpp:25-28 | Appends the bytes at the end; stored bytes and cursor are unchanged; the cursor invariant `readPos <= |data|` is kept. |
| Targets.BufferTarget.Read | include/mser/targets.hpp:30-37 | Succeeds iff `readPos + n <= |data|`. On success it yields `data[readPos..readPos+n]` and advances the cursor by `n`. Otherwise it fails with `Overflow` and leaves the cursor in place. The data never changes. |
| Targets.BufferTarget.Peek | include/mser/targets.hpp:39-45 | The byte at the cursor, or `'\0'` at the end; as a function it cannot move the cursor. |
| Targets.BufferTarget.Eof | include/mser/targets.hpp:47-50 | True iff the cursor is at or past the end. |
| Targets.BufferTarget.Tell | include/mser/targets.hpp:52 | The cursor offset. |
| Targets.BufferTarget.Context | include/mser/targets.hpp:54-79 | Const query. The result is `Window` over the current data and cursor, and is at most `before + after` bytes long. |
| Decimal.Digits | include/mser/mser.hpp:46 | A natural number's decimal text is a non-empty run of digits, and is a single digit iff the number is below 10. |
| Decimal.ToString | include/mser/mser.hpp:46 | `std::to_string` is non-empty. It starts with `-` exactly for negative numbers and has only digits after its first byte. |
| Decimal.DigitsValueOfDigits | include/mser/mser.hpp:177-178 | Reading a number's decimal digits back gives the number. |
| Decimal.SpaceEnd | include/mser/mser.hpp:177-178 | `std::stoll` skips a maximal run of `isspace` bytes. |
| Decimal.DigitEnd | include/mser/mser.hpp:177-178 | The number `std::stoll` reads ends at the first byte that is not a digit. |
| Decimal.StoLL | include/mser/mser.hpp:177-178 | Success only on a non-empty input and only with a `long long` value. Every failure is `invalid_argument` or `out_of_range`. |
| Decimal.StoLLOfToString | include/mser/mser.hpp:177-178 | `std::stoll(std::to_string(x)) == x` for every `long long` `x`. |
| Decimal.StoLLOutOfRange | include/mser/mser.hpp:177-178 | `std::stoll` of the text of a number above `LLONG_MAX` raises `out_of_range`. |
| NativeLayout.ToBits | include/mser/mser.hpp:42-43 | The unsigned reading of an integer's bits is below 256^sizeof, and is the integer itself when it is non-negative. |
| NativeLayout.FromBits | include/mser/mser.hpp:152-153 | The value whose bits read as `n` lies in the type's range and is congruent to `n` modulo 256^sizeof. |
| NativeLayout.BitsRoundTrip | include/mser/mser.hpp:42-43 | Reading an integer's bits back as the same type gives the integer. |
| NativeLayout.Narrow | include/mser/mser.hpp:177-178 | Storing a `long long` into type `T` yields a value of `T` congruent to it modulo 256^sizeof(T). That value is the number itself whenever the number fits `T`. |
| NativeLayout.LittleEndian | include/mser/mser.hpp:42-43 | An unsigned number below 256^w becomes exactly `w` bytes. |
| NativeLayout.FromLittleEndian | include/mser/mser.hpp:152-153 | `w` bytes denote a number below 256^w. |
| NativeLayout.LittleEndianRoundTrip | include/mser/mser.hpp:42-43 | Decoding the `w` little-endian bytes of `n` gives `n`. |
| NativeLayout.RawBytes | include/mser/mser.hpp:42-43 | An integer's `reinterpret_cast` bytes are exactly `sizeof(T)` of them. |
| NativeLayout.FromRawBytes | include/mser/mser.hpp:152-153 | `memcpy` of `sizeof(T)` bytes into a `T` yields a value in `T`'s range. |
| NativeLayout.RawBytesRoundTrip | include/mser/mser.hpp:152-153 | Reading back an integer's raw bytes gives the integer. |
| Encoding.ScalarBytes | include/mser/mser.hpp:37-49 | A binary integer is `sizeof(T)` bytes. A text integer has at least two bytes and ends in `;`. |
| Encoding.StringBytes | include/mser/mser.hpp:61-80 | A binary string is its eight length bytes plus its own bytes. A text string starts with `"` and is at least four bytes longer than the string. |
| Encoding.Encode | include/mser/mser.hpp:37-111 | Every value writes at least one byte. In binary an integer writes `sizeof(T)` bytes, a `char` one, a string `8 + length`, a vector at least `8 + count`. A text vector starts with `[` and ends with `]`. |
| Encoding.ItemsBytes | include/mser/mser.hpp:100-105 | The remaining items write at least one byte each. |
| Encoding.Escape | include/mser/mser.hpp:72-77 | The escaped body of a string is never shorter than the string. |
| Encoding.EscapeAppend | include/mser/mser.hpp:72-77 | Escaping byte by byte, as the loop does, equals escaping the whole string. |
| Encoding.EscapeStep | include/mser/mser.hpp:74-76 | One turn of the string loop appends the escape of the next byte. |
| Serializer.Serializer.constructor | include/mser/mser.hpp:27-31 | The serializer keeps the target, format and pretty flag it is given, with `indent` at 0. |
| Serializer.Serializer.Default | include/mser/mser.hpp:33-35 | The one-argument serializer writes compact text. |
| Serializer.Serializer.WriteScalar | include/mser/mser.hpp:37-49 | Appends exactly the integer's raw bytes (binary) or its decimal text and `;` (text). Nothing already stored changes and the cursor stays put. |
| Serializer.Serializer.WriteChar | include/mser/mser.hpp:51-59 | Appends the one byte, in both layouts. |
| Serializer.Serializer.WriteString | include/mser/mser.hpp:61-80 | Appends a `size_t` length and the bytes (binary), or the quoted escaped literal (text). |
| Serializer.Serializer.WriteQuoted | include/mser/mser.hpp:69-79 | The escaping loop appends `"`, then `Escape(s)`, then `"; `. Its loop invariant is that the output so far is the escape of the prefix consumed. |
| Serializer.Serializer.WriteTabs | include/mser/mser.hpp:108 | The tab loop appends exactly `n` tabs. |
| Serializer.Serializer.WriteVector | include/mser/mser.hpp:82-111 | Appends exactly `Encode` of the vector at the current depth, and `indent` is the same after the call as before. |
| Serializer.Serializer.WriteBracketed | include/mser/mser.hpp:92-110 | The text branch writes `[]` for an empty vector. Otherwise it writes the bracketed layout with the items one level deeper and restores `indent`. |
| Serializer.Serializer.WriteItems | include/mser/mser.hpp:100-105 | The item loop appends each item's encoding in order, tab-indented and newline-terminated in pretty text, with `indent` unchanged. |
| Serializer.Serializer.WriteItem | include/mser/mser.hpp:100-105 | One turn of the item loop appends the item's encoding, with its tabs and line break in pretty text, and restores `indent`. |
| Serializer.Serializer.WriteValue | include/mser/mser.hpp:37-111 | Any value: appends exactly `Encode(format, pretty, indent, v)` and leaves `indent` unchanged. |
| Diagnostics.ErrorAt | include/mser/mser.hpp:294-301 | The error records the byte, what was expected and the cursor. It holds two context windows of at most ten bytes each. |
| Diagnostics.Diagram | include/mser/mser.hpp:302-306 | The message ends with the windows around the byte on one line. The next line holds as many spaces as the "before" window has bytes, then `|`. |
| Diagnostics.AfterWindow | include/mser/mser.hpp:301 | The "after" window is the (up to) ten bytes following the offending byte, and empty at the end of the buffer. |
| Diagnostics.CaretAligned | include/mser/mser.hpp:299-306 | Ten or more bytes into the buffer, the first line is a contiguous slice with the byte in column ten, directly above the `\|`. |
| Diagnostics.CaretNearStart | include/mser/mser.hpp:300 | Fewer than ten bytes in, the "before" window is the buffer's start and already contains the offending byte, so the caret is misplaced. |
| Diagnostics.CaretNearStartExample | include/mser/mser.hpp:294-307 | On `abc` at offset 0 the message shows `abcabc` and the caret under the second `a`. |
| Decoding.SkipEnd | include/mser/mser.hpp:277-292 | `_skip` stops at the end or at the first byte outside space, `;`, `\n`, `\t`, `\r`. It only passes separators. |
| Decoding.SkipEndSeparators | include/mser/mser.hpp:277-292 | Every byte `_skip` passes over is a separator, so the run it consumes is maximal. |
| Decoding.Lex | include/mser/mser.hpp:158-175 | The lexer ends on or before the end of the buffer. |
| Decoding.LexMeaning | include/mser/mser.hpp:158-175 | Every byte the lexer passes is neither a space nor `;`, and a `-` only as the token's first byte. A token is exactly the bytes passed and ends at the end of the buffer, a space or `;`. A failure is `_error_char` at a `-` after the first byte, before it is consumed. |
| Decoding.Unescape | include/mser/mser.hpp:205-230 | The unescaper succeeds only just after an unescaped `"`. Running out of bytes is `Overflow` at the end of the buffer. |
| Decoding.DecodeScalar | include/mser/mser.hpp:145-189 | A successful integer read consumes input and yields a value of the requested type. |
| Decoding.DecodeChar | include/mser/mser.hpp:235-249 | A successful `char` read consumes input and yields a character. |
| Decoding.DecodeString | include/mser/mser.hpp:191-233 | A successful string read consumes input and yields a string. |
| Decoding.DecodeVector | include/mser/mser.hpp:251-267 | A successful vector read consumes input, whatever the format. |
| Decoding.DecodeItems | include/mser/mser.hpp:259-266 | The item loop only moves the cursor forward, and consumes input when it succeeds. |
| Decoding.Decode | include/mser/mser.hpp:137-143 | Any read ends on or before the end of the buffer and consumes input when it succeeds. |
| Decoding.DecodeConforms | include/mser/mser.hpp:145-267 | A successful read yields a value of exactly the requested shape, at every nesting level, with integers in their type's range. |
| Decoding.DecodeItemsConforms | include/mser/mser.hpp:259-264 | The item loop keeps every item it reads of the element shape. |
| Deserializer.Deserializer.constructor | include/mser/mser.hpp:128-131 | The deserializer keeps the target and format it is given. |
| Deserializer.Deserializer.Default | include/mser/mser.hpp:133-135 | The one-argument deserializer reads text. |
| Deserializer.Deserializer.Skip | include/mser/mser.hpp:277-292 | `_skip` moves the cursor to `SkipEnd` and changes nothing else. |
| Deserializer.Deserializer.ErrorChar | include/mser/mser.hpp:294-307 | The error is built from `tell()` and the two `context` windows of the current buffer. |
| Deserializer.Deserializer.ReadScalar | include/mser/mser.hpp:145-189 | Yields exactly `DecodeScalar`'s value or error, and leaves the cursor where `DecodeScalar` says. |
| Deserializer.Deserializer.ReadToken | include/mser/mser.hpp:158-175 | The lexer loop yields `Lex`'s token or error and stops where `Lex` stops. |
| Deserializer.Deserializer.ReadChar | include/mser/mser.hpp:235-249 | Yields exactly `DecodeChar`'s result and cursor. |
| Deserializer.Deserializer.ReadString | include/mser/mser.hpp:191-233 | Yields exactly `DecodeString`'s result and cursor. |
| Deserializer.Deserializer.ReadSized | include/mser/mser.hpp:193-199 | The binary string branch yields `DecodeString(Binary, …)`'s result and cursor. |
| Deserializer.Deserializer.ReadQuoted | include/mser/mser.hpp:205-230 | The unescaping loop yields `Unescape`'s string or `Overflow`, and stops where `Unescape` stops. |
| Deserializer.Deserializer.ReadVector | include/mser/mser.hpp:251-258 | Yields exactly `DecodeVector`'s result and cursor. |
| Deserializer.Deserializer.ReadItems | include/mser/mser.hpp:259-266 | The `push_back` loop yields `DecodeItems`' result and cursor. |
| Deserializer.Deserializer.ReadValue | include/mser/mser.hpp:137-143 | A read of any shape yields exactly `Decode`'s result and cursor. |
| RoundTrip.SkipEndOver | include/mser/mser.hpp:277-292 | A run of separators is skipped as one. |
| RoundTrip.FirstByte | include/mser/mser.hpp:37-111 | A text encoding starts with a byte that is not a separator. It starts with `]` only for the character `]` itself. |
| RoundTrip.LexToken | include/mser/mser.hpp:161-175 | The lexer takes a `;`-terminated token with at most a leading `-` whole. |
| RoundTrip.LexToString | include/mser/mser.hpp:157-176 | The lexer reads back exactly the text `std::to_string` wrote. |
| RoundTrip.UnescapeEscape | include/mser/mser.hpp:210-230 | The unescaper reads an escaped string back to the original. It stops just past the quote that follows, so the escaped body has no bare `"`. |
| RoundTrip.UnescapeByte | include/mser/mser.hpp:213-229 | One escaped byte is read back as that byte. |
| RoundTrip.SkipLayout | include/mser/mser.hpp:277-292 | Layout made only of separators is skipped as one run. |
| RoundTrip.IndentationSeparators | include/mser/mser.hpp:102 | Pretty-print tabs are separators. |
| RoundTrip.LineBreakSeparators | include/mser/mser.hpp:97 | Pretty-print line breaks are separators. |
| RoundTrip.SkipEndIdempotent | include/mser/mser.hpp:277-292 | `_skip` twice is `_skip` once. |
| RoundTrip.TextRoundTrip | include/mser/mser.hpp:137-267 | The text round trip for any value that `TextSafe` admits. Integers must fit `long long`, characters must not be separators, and no vector item may be `]`. With only separators between the cursor and the encoding, the reader returns the value and stops past the separators that follow it, whatever comes after. |
| RoundTrip.ScalarRoundTrip | include/mser/mser.hpp:154-183 | A text integer reads back as itself. |
| RoundTrip.CharRoundTrip | include/mser/mser.hpp:241-248 | A text non-separator character reads back as itself. |
| RoundTrip.QuotedLayout | include/mser/mser.hpp:71-78 | Locates the parts of `"esc"; ` in the buffer. The `; ` after the closing quote is skipped as separators. |
| RoundTrip.StringRoundTrip | include/mser/mser.hpp:200-232 | A text string reads back as itself, and the cursor ends after the trailing `; `. |
| RoundTrip.BracketLayout | include/mser/mser.hpp:94-109 | Locates the parts of a bracketed vector in the buffer. The line break after `[` is skipped. |
| RoundTrip.VectorRoundTrip | include/mser/mser.hpp:251-267 | A text vector reads back as itself, in pretty and compact mode, at any depth. |
| RoundTrip.ItemLayout | include/mser/mser.hpp:100-105 | Locates an item between its leading tabs and its trailing line break. |
| RoundTrip.ItemStep | include/mser/mser.hpp:260-264 | One turn of the item loop reads back the next item. |
| RoundTrip.ItemsAdvance | include/mser/mser.hpp:260-264 | One turn of the item loop advances past one item and the separators after it. |
| RoundTrip.ItemsClose | include/mser/mser.hpp:265-266 | After the last item only the closing tabs remain, and the `]` ends the vector. |
| RoundTrip.ItemsRoundTrip | include/mser/mser.hpp:259-266 | The item loop reads back all remaining items and stops past `]`. |
| Properties.BinaryRoundTrip | include/mser/mser.hpp:148-153 | Binary round trip for every non-vector value. Reader and writer agree on the size: `sizeof(T)` for an integer, one byte for a `char`, and `8 + length` for a string. |
| Properties.LowByteFirst | include/mser/mser.hpp:87-88 | A binary vector starts with the low byte of its count. |
| Properties.BinaryVectorUnreadable | include/mser/mser.hpp:251-258 | The vector reader ignores the format. A binary vector whose count's low byte is neither a separator nor `[` is refused at once with "Expected '['". |
| Properties.BinaryEmptyVectorExample | include/mser/mser.hpp:85-91 | The empty binary vector is eight zero bytes and cannot be read back. |
| Properties.TextRoundTripFromStart | include/mser/mser.hpp:137-143 | A value written at the start of a buffer reads back whatever follows it. |
| Properties.TextRoundTripWhole | include/mser/mser.hpp:137-143 | A buffer holding one encoded value reads back as that value and is consumed to the end. |
| Properties.DigitEncoding | include/mser/mser.hpp:46 | A one-digit `int` in text is its digit and `;`, with no space. |
| Properties.InnerExample | include/mser/mser.hpp:94-109 | `{1, 2, 3}` in compact text is `[1;2;3;]`. |
| Properties.InnerExample2 | include/mser/mser.hpp:94-109 | `{4, 5}` in compact text is `[4;5;]`. |
| Properties.CompactNestedItems | include/mser/mser.hpp:100-105 | The outer loop writes the two inner vectors back to back. |
| Properties.CompactNestedEncoding | include/mser/mser.hpp:94-109 | `{{1, 2, 3}, {4, 5}}` in compact text is `[[1;2;3;][4;5;]]`. |
| Properties.CompactNestedExample | include/mser/mser.hpp:251-267 | `[[1;2;3;][4;5;]]` read as `vector<vector<int>>` is `{{1, 2, 3}, {4, 5}}`, and all 16 bytes are consumed. |
| Properties.EmptyInputFails | include/mser/mser.hpp:137-267 | A read from an empty buffer fails for every shape and format, with the cursor left at 0. |
| Properties.NumericPrefixExample | include/mser/mser.hpp:177-178 | `12ab;` read as an `int` is 12. |
| Properties.StoLLPrefixExample | include/mser/mser.hpp:178 | `std::stoll("12ab")` is 12. |
| Properties.InnerMinusExample | include/mser/mser.hpp:167-170 | In `1-2;` the `-` is reported at offset 1, before it is consumed. |
| Properties.NoDigitsExample | include/mser/mser.hpp:178 | `abc;` read as an `int` is `invalid_argument`, with the cursor after the token. |
| Properties.NarrowingExample | include/mser/mser.hpp:177-178 | `300;` read as a `uint8_t` is 44. |
| Properties.UnsignedOutOfRange | include/mser/mser.hpp:177-178 | A `uint64_t` above `LLONG_MAX` is written in full but reads back as `out_of_range`. |
| Properties.UnterminatedStringExample | include/mser/mser.hpp:210-212 | A string without its closing quote fails with `Overflow` at the end of the buffer. |
| Properties.MissingQuoteExample | include/mser/mser.hpp:203 | A string that does not start with `"` is refused at its first byte. |
| Properties.SeparatorCharLost | include/mser/mser.hpp:51-59 | Writing `' '` then `'x'` gives ` x`, and the next `char` read returns `'x'`: a separator character does not survive. |
| Properties.BracketCharLost | include/mser/mser.hpp:260 | `{']'}` as a `vector<char>` is written `[]]`. It reads back as the empty vector, with the last `]` left unread. |

## Left out

- `file_target` and `buffered_file_target`: OS file streams, seeking and flushing are outside this model.
- `main.cpp` is a demo driver and is not part of this model.
- Floating-point values (`std::stod`, `std::to_string` of a `double`) and `bool` are left out. Only the integer kinds of width 1, 2, 4 and 8 are modelled.
- Byte order: the raw layout of an integer or `size_t` is modelled as little-endian two's complement, the native order of the usual hosts. `size_t` is 8 bytes.
- The English text of exception messages is left out. Only which error occurs is kept, plus, for `_error_char`, its position, windows and caret layout.
- `operator<<`, `operator>>` and the `T read()` wrapper are thin forwarders to `write`/`read` and are not modelled separately.
- Integer width: the positions and lengths in the model are unbounded naturals. `read_pos + size` cannot wrap around the way a `size_t` sum can, and a buffer of more than 2^64 bytes is not excluded.
- Deserializer.Deserializer.ReadSized: `value.resize(len)` with a huge length throws before the read: `length_error` when `len` exceeds `max_size()`, or `bad_alloc`. The model reports `Overflow` for any length that the buffer cannot supply.
- Decoding.DecodeString: the same gap as `ReadSized`. A binary length above `max_size()` is `length_error` in the source (`resize`, mser.hpp:197) and `Overflow` in the model.
- Deserializer.Deserializer.ReadString: on failure the caller's string is left partly written in the source. In text it is cleared and then filled up to the failing byte (mser.hpp:208-229); in binary it is resized before the read that fails (mser.hpp:197). The model's `Fail` carries no value, so it does not capture what the out-parameter holds after an error.
- Deserializer.Deserializer.ReadVector: on failure the caller's vector is left cleared and holding the items read so far plus one default-constructed item (mser.hpp:259-263). The model's `Fail` carries no value, so this partial state is not captured.
- `char` signedness is not modelled. The lexer's only signed comparison reduces to "a `-` that is not the first byte", whatever the signedness.
- Aliasing: serializer and deserializer each hold their target as a field. Both may share one target, since the writer never moves the cursor and the reader never changes the data.
