/** The failures the codec can raise, and the two result shapes used to carry
    them in place of C++ exceptions. */
module Errors {
  import opened Bytes

  /** What `_error_char` was told the input should have held. */
  datatype Expected = Numeral | Quote | OpenBracket

  datatype Error =
    /** `buffer_target::read` asked for more bytes than remain. */
    | Overflow
    /** `deserializer::_error_char`: the offending byte, what was expected,
        the cursor offset (`tell()`), and the two context windows. */
    | Unexpected(ch: byte, expected: Expected, pos: nat, before: seq<byte>, after: seq<byte>)
    /** `std::stoll` found no number (`std::invalid_argument`). */
    | InvalidArgument
    /** `std::stoll` found a number outside `long long` (`std::out_of_range`). */
    | OutOfRange

  /** The outcome of a call that either yields a value or throws. */
  datatype Result<+T> = Success(value: T) | Failure(error: Error)

  /** The outcome of a read from a position in the stream: the value or the
      error, and the cursor offset the read leaves behind in either case. */
  datatype Decoded<+T> = Ok(value: T, pos: nat) | Fail(error: Error, pos: nat)

  /** What the caller of a read sees: the value, or the exception. */
  function ToResult<T>(d: Decoded<T>): (r: Result<T>)
    ensures r.Success? <==> d.Ok?
    ensures d.Ok? ==> r.value == d.value
    ensures d.Fail? ==> r.error == d.error
  {
    match d
    case Ok(v, _) => Success(v)
    case Fail(e, _) => Failure(e)
  }
}
