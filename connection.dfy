/** `Connection::open` of `pglite/src/lib.rs`: the data directory must be
    UTF-8 and then free of NUL bytes; when it is, a worker thread brings the
    engine up and hands it the directory, byte for byte, through
    `SetDataDir`. */
module Connection {
  import opened Common
  import Utf8

  datatype OpenError = PathNameNotUtf8 | PathNameContainsNul

  /** An open connection; it carries no state yet. */
  datatype Connection = Connection

  /** `CString::new`: refuses bytes holding a NUL, since the terminator would
      cut them short. */
  function CStringNew(b: Bytes): (r: Option<CStr>)
    ensures r.Some? <==> 0 !in b
    ensures r.Some? ==> r.value == Ptr(b)
  {
    if 0 in b then None else Some(Ptr(b))
  }

  /** The two validation steps: `Path::to_str`, then `CString::new` of the
      text's bytes. The string passed on is the result. */
  function Validate(path: Bytes): (r: Result<CStr, OpenError>)
    ensures r == Err(PathNameNotUtf8) <==> Utf8.Decode(path).None?
    ensures r.Ok? ==> r.value.Ptr? && 0 !in r.value.bytes
  {
    match Utf8.Decode(path)
    case None => Err(PathNameNotUtf8)
    case Some(text) =>
      match CStringNew(Utf8.Encode(text))
      case None => Err(PathNameContainsNul)
      case Some(c) => Ok(c)
  }

  /** What `open` answers for every path: not UTF-8 wins over a NUL byte,
      and a valid path is passed on exactly as it was given. */
  lemma {:induction false} ValidateOutcome(path: Bytes)
    ensures Utf8.Decode(path).None? ==> Validate(path) == Err(PathNameNotUtf8)
    ensures Utf8.Decode(path).Some? && 0 in path ==> Validate(path) == Err(PathNameContainsNul)
    ensures Utf8.Decode(path).Some? && 0 !in path ==> Validate(path) == Ok(Ptr(path))
  {
    if Utf8.Decode(path).Some? {
      Utf8.EncodeDecode(path);
    }
  }

  /** A path made of bytes that are neither NUL nor above 0x7F always
      opens. */
  lemma AsciiPathOpens(path: Bytes)
    requires forall i | 0 <= i < |path| :: 0 < path[i] < 0x80
    ensures Validate(path) == Ok(Ptr(path))
  {
    Utf8.DecodeAscii(path);
    ValidateOutcome(path);
  }

  /** The engine state the worker thread sets up: the data directory
      `SetDataDir` receives, and whether `thread_start` has run. */
  class Engine {
    var dataDir: Option<CStr>
    var threadStarted: bool

    constructor ()
      ensures dataDir == None && !threadStarted
    {
      dataDir := None;
      threadStarted := false;
    }

    /** `thread_start` of `db::init`: thread-local set-up, as far as it
        concerns this model. */
    method ThreadStart()
      modifies this
      ensures threadStarted && dataDir == old(dataDir)
    {
      threadStarted := true;
    }

    /** `SetDataDir`, reached through `db::bootstrap::main`. */
    method SetDataDir(dir: CStr)
      modifies this
      ensures dataDir == Some(dir) && threadStarted == old(threadStarted)
    {
      dataDir := Some(dir);
    }

    /** `Connection::open`. The worker runs to completion before `open`
        returns, so it is modelled inline. */
    method Open(path: Bytes) returns (r: Result<Connection, OpenError>)
      modifies this
      ensures r.Err? <==> Validate(path).Err?
      ensures r.Err? ==> r.error == Validate(path).error && unchanged(this)
      ensures r.Ok? ==> dataDir == Some(Ptr(path)) && threadStarted
    {
      ValidateOutcome(path);
      var text := Utf8.Decode(path);
      if text.None? {
        return Err(PathNameNotUtf8);
      }
      var dir := CStringNew(Utf8.Encode(text.value));
      if dir.None? {
        return Err(PathNameContainsNul);
      }
      ThreadStart();
      SetDataDir(dir.value);
      r := Ok(Connection);
    }
  }
}
