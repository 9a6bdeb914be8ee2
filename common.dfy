/** Values shared by every part of the model: optional values, fallible
    results, bytes and C strings. */
module Common {

  /** Rust's `Option` (and a C pointer that may be null). */
  datatype Option<+T> = None | Some(value: T) {
    function GetOr(default: T): T {
      match this
      case Some(v) => v
      case None => default
    }
  }

  /** Rust's `Result`. */
  datatype Result<+T, +E> = Ok(value: T) | Err(error: E)

  /** One byte of memory. */
  newtype u8 = b: int | 0 <= b < 256

  /** Bytes as stored in a C string, a Rust `&[u8]`, or a Rust `String`. */
  type Bytes = seq<u8>

  /** A `const char *`: either null or pointing at a NUL-terminated string,
      whose bytes up to (not including) the terminator are `bytes`. */
  datatype CStr = Null | Ptr(bytes: Bytes)

  /** Severity codes of PostgreSQL's `utils/elog.h` (releases 14 to 16). */
  const DEBUG5: int := 10
  const DEBUG4: int := 11
  const DEBUG3: int := 12
  const DEBUG2: int := 13
  const DEBUG1: int := 14
  const LOG: int := 15
  const LOG_SERVER_ONLY: int := 16
  const INFO: int := 17
  const NOTICE: int := 18
  const WARNING: int := 19
  const WARNING_CLIENT_ONLY: int := 20
  const ERROR: int := 21
  const FATAL: int := 22
  const PANIC: int := 23

  /** The bytes of an ASCII literal. */
  function Ascii(s: string): (b: Bytes)
    requires forall i :: 0 <= i < |s| ==> s[i] as int < 128
    ensures |b| == |s|
    ensures forall i :: 0 <= i < |s| ==> b[i] as int == s[i] as int
  {
    if s == [] then [] else [s[0] as int as u8] + Ascii(s[1..])
  }
}
