/** The filesystem shim of `pglite-sys/src/shim/fs.c`: `pglite_mkdir`,
    `pglite_opendir`, `pglite_stat` and `pglite_open` each join the data
    directory and the engine's path, trace the joined path at DEBUG1, clear
    `errno`, run the real primitive on the joined path, free the joined path
    with `errno` saved around the free, and return what the primitive
    returned. The primitives, `elog` and `pfree` are oracles: each says what
    it returns and what, if anything, it writes to `errno`. */
module FsShim {
  import opened Common

  const Slash: u8 := 0x2F
  const Dot: u8 := 0x2E

  /** `psprintf("%s/%s", DataDir, path)`: a plain textual join. */
  function ResolvePath(dataDir: Bytes, path: Bytes): (r: Bytes)
    ensures |r| == |dataDir| + 1 + |path|
    ensures r[..|dataDir| + 1] == dataDir + [Slash]
    ensures r[|dataDir| + 1..] == path
  {
    dataDir + [Slash] + path
  }

  // ---------------------------------------------------------------------
  // Lexical containment: what the joined path names once `.`, `..` and
  // empty segments are resolved the way the kernel resolves them (symbolic
  // links aside).

  /** The segments between slashes; `n` slashes give `n + 1` segments. */
  function Split(b: Bytes): (segs: seq<Bytes>)
    ensures |segs| >= 1
  {
    if b == [] then [[]]
    else
      var rest := Split(b[1..]);
      if b[0] == Slash then [[]] + rest
      else [[b[0]] + rest[0]] + rest[1..]
  }

  /** Resolving one segment against the directories walked so far. */
  function Enter(dirs: seq<Bytes>, seg: Bytes): seq<Bytes> {
    if seg == [] || seg == [Dot] then dirs
    else if seg == [Dot, Dot] then (if dirs == [] then [] else dirs[..|dirs| - 1])
    else dirs + [seg]
  }

  function Walk(dirs: seq<Bytes>, segs: seq<Bytes>): seq<Bytes>
    decreases |segs|
  {
    if segs == [] then dirs else Walk(Enter(dirs, segs[0]), segs[1..])
  }

  /** The directories from the root that a path names, lexically. */
  function Lexical(b: Bytes): seq<Bytes> {
    Walk([], Split(b))
  }

  /** A path none of whose segments is `..`. */
  predicate NoDotDot(path: Bytes) {
    forall seg | seg in Split(path) :: seg != [Dot, Dot]
  }

  lemma {:induction false} SplitNoSlash(b: Bytes)
    requires Slash !in b
    ensures Split(b) == [b]
  {
    if b != [] {
      assert b[0] in b;
      assert forall i | 0 <= i < |b[1..]| :: b[1..][i] == b[i + 1];
      SplitNoSlash(b[1..]);
      assert [b[0]] + b[1..] == b;
    }
  }

  /** Joining with a slash splits into the segments of both sides. */
  lemma {:induction false} SplitJoin(x: Bytes, y: Bytes)
    ensures Split(x + [Slash] + y) == Split(x) + Split(y)
  {
    if x == [] {
      assert x + [Slash] + y == [Slash] + y;
      assert ([Slash] + y)[1..] == y;
    } else {
      var j := x + [Slash] + y;
      assert j[0] == x[0] && j[1..] == x[1..] + [Slash] + y;
      SplitJoin(x[1..], y);
      var sx, r := Split(x[1..]), Split(j[1..]);
      assert r == sx + Split(y);
      if x[0] != Slash {
        assert r[0] == sx[0] && r[1..] == sx[1..] + Split(y);
        assert Split(j) == [[x[0]] + sx[0]] + (sx[1..] + Split(y));
        assert Split(x) == [[x[0]] + sx[0]] + sx[1..];
      }
    }
  }

  lemma {:induction false} WalkAppend(dirs: seq<Bytes>, a: seq<Bytes>, b: seq<Bytes>)
    ensures Walk(dirs, a + b) == Walk(Walk(dirs, a), b)
    decreases |a|
  {
    if a == [] {
      assert a + b == b;
    } else {
      assert (a + b)[0] == a[0] && (a + b)[1..] == a[1..] + b;
      WalkAppend(Enter(dirs, a[0]), a[1..], b);
    }
  }

  /** Without `..`, walking only ever descends. */
  lemma {:induction false} WalkDescends(dirs: seq<Bytes>, segs: seq<Bytes>)
    requires forall i | 0 <= i < |segs| :: segs[i] != [Dot, Dot]
    ensures dirs <= Walk(dirs, segs)
    decreases |segs|
  {
    if segs != [] {
      WalkDescends(Enter(dirs, segs[0]), segs[1..]);
    }
  }

  /** Containment: a path without `..` segments, absolute or not, names
      something at or under the data directory. */
  lemma Contained(dataDir: Bytes, path: Bytes)
    requires NoDotDot(path)
    ensures Lexical(dataDir) <= Lexical(ResolvePath(dataDir, path))
  {
    SplitJoin(dataDir, path);
    WalkAppend([], Split(dataDir), Split(path));
    var segs := Split(path);
    forall i | 0 <= i < |segs| ensures segs[i] != [Dot, Dot] {
      assert segs[i] in segs;
    }
    WalkDescends(Lexical(dataDir), segs);
  }

  /** The join does no normalisation, so `..` escapes: with data directory
      `/d`, the path `..` names the root. */
  lemma DotDotEscapes()
    ensures var dataDir: Bytes := [Slash, 0x64];
            Lexical(ResolvePath(dataDir, [Dot, Dot])) == [] && Lexical(dataDir) == [[0x64]]
  {
    var dataDir: Bytes := [Slash, 0x64];
    SplitNoSlash([0x64]);
    SplitNoSlash([Dot, Dot]);
    SplitJoin([], [0x64]);
    assert [] + [Slash] + [0x64] == dataDir;
    SplitJoin(dataDir, [Dot, Dot]);
    var segs := [[], [0x64], [Dot, Dot]];
    assert Split(dataDir) == segs[..2];
    assert Split(ResolvePath(dataDir, [Dot, Dot])) == segs;
    assert segs[1..][1..] == [[Dot, Dot]] && segs[..2][1..] == [[0x64]];
    assert Walk([[0x64]], [[Dot, Dot]]) == Walk([], []) == [];
    assert Walk([], segs) == Walk([], segs[1..]) == Walk([[0x64]], segs[1..][1..]);
    assert Walk([], [[0x64]]) == Walk([[0x64]], []) == [[0x64]];
  }

  // ---------------------------------------------------------------------
  // The backend state the four functions touch.

  /** A primitive asked of the host, with the arguments it was given. */
  datatype Request =
    | Mkdir(path: Bytes, mode: int)
    | Opendir(path: Bytes)
    | Stat(path: Bytes)
    | Open(path: Bytes, flags: int, mode: int)

  /** What the shim makes observable, in order: an allocation by `psprintf`,
      an `elog` record (its level, format and argument), a primitive asked
      of the host, a `pfree`. */
  datatype Event =
    | Palloc(buffer: nat, contents: Bytes)
    | Trace(level: int, format: string, arg: Bytes)
    | Syscall(request: Request)
    | Pfree(buffer: nat)

  /** What an oracle did: its result, and the value it stored in `errno`
      (None when it left `errno` alone). */
  datatype Reply<T> = Reply(value: T, errnoWrite: Option<int>)

  /** The value of `errno` after a write that may not happen. */
  function Written(errno: int, write: Option<int>): int {
    match write
    case Some(e) => e
    case None => errno
  }

  /** An open directory stream (`DIR *`). */
  datatype Dir = Dir(handle: nat)

  /** The fields of `struct stat` the engine reads. */
  datatype StatData = StatData(dev: int, ino: int, mode: int, nlink: int, uid: int, gid: int, size: int, mtime: int)

  /** What `stat` did: its return code, what it stored in the caller's
      buffer (None when it stored nothing) and what it stored in `errno`. */
  datatype StatReply = StatReply(rc: int, filled: Option<StatData>, errnoWrite: Option<int>)

  /** The caller's `struct stat` buffer. */
  class StatBuf {
    var data: StatData
    constructor (init: StatData)
      ensures data == init
    {
      data := init;
    }
  }

  /** The events of one shim call: allocate the joined path, trace it,
      run the primitive on it, free it. */
  function CallEvents(buffer: nat, format: string, abs: Bytes, request: Request): seq<Event> {
    [Palloc(buffer, abs), Trace(DEBUG1, format, abs), Syscall(request), Pfree(buffer)]
  }

  /** One call's events: the trace and the primitive both see the path that
      was allocated, and the buffer freed is the one allocated. */
  predicate IsCall(block: seq<Event>) {
    && |block| == 4
    && block[0].Palloc? && block[1].Trace? && block[2].Syscall? && block[3].Pfree?
    && block[1].level == DEBUG1
    && block[1].arg == block[0].contents
    && block[2].request.path == block[0].contents
    && block[3].buffer == block[0].buffer
  }

  /** A history made of whole shim calls. */
  predicate Calls(events: seq<Event>)
    decreases |events|
  {
    events == [] || (|events| >= 4 && IsCall(events[..4]) && Calls(events[4..]))
  }

  lemma {:induction false} CallsExtend(events: seq<Event>, block: seq<Event>)
    requires Calls(events) && IsCall(block)
    ensures Calls(events + block)
    decreases |events|
  {
    if events == [] {
      assert events + block == block;
      assert block[..4] == block && block[4..] == [];
    } else {
      CallsExtend(events[4..], block);
      assert (events + block)[..4] == events[..4];
      assert (events + block)[4..] == events[4..] + block;
    }
  }

  function CountTraces(events: seq<Event>): nat {
    if events == [] then 0 else (if events[0].Trace? then 1 else 0) + CountTraces(events[1..])
  }

  function CountSyscalls(events: seq<Event>): nat {
    if events == [] then 0 else (if events[0].Syscall? then 1 else 0) + CountSyscalls(events[1..])
  }

  function CountPallocs(events: seq<Event>): nat {
    if events == [] then 0 else (if events[0].Palloc? then 1 else 0) + CountPallocs(events[1..])
  }

  function CountPfrees(events: seq<Event>): nat {
    if events == [] then 0 else (if events[0].Pfree? then 1 else 0) + CountPfrees(events[1..])
  }

  lemma {:induction false} CountsAppend(a: seq<Event>, b: seq<Event>)
    ensures CountTraces(a + b) == CountTraces(a) + CountTraces(b)
    ensures CountSyscalls(a + b) == CountSyscalls(a) + CountSyscalls(b)
    ensures CountPallocs(a + b) == CountPallocs(a) + CountPallocs(b)
    ensures CountPfrees(a + b) == CountPfrees(a) + CountPfrees(b)
  {
    if a == [] {
      assert a + b == b;
    } else {
      CountsAppend(a[1..], b);
      assert (a + b)[0] == a[0] && (a + b)[1..] == a[1..] + b;
    }
  }

  lemma BlockCounts(block: seq<Event>)
    requires IsCall(block)
    ensures CountTraces(block) == 1 && CountSyscalls(block) == 1
    ensures CountPallocs(block) == 1 && CountPfrees(block) == 1
  {
    var b1, b2, b3 := block[1..], block[2..], block[3..];
    assert b1[1..] == b2 && b2[1..] == b3 && b3[1..] == [];
    assert CountTraces(b3) == 0 && CountSyscalls(b3) == 0 && CountPallocs(b3) == 0 && CountPfrees(b3) == 1;
    assert CountTraces(b2) == 0 && CountSyscalls(b2) == 1 && CountPallocs(b2) == 0 && CountPfrees(b2) == 1;
    assert CountTraces(b1) == 1 && CountSyscalls(b1) == 1 && CountPallocs(b1) == 0 && CountPfrees(b1) == 1;
  }

  /** Over any history of shim calls: one trace per primitive, and as many
      frees as allocations. */
  lemma {:induction false} CallsBalanced(events: seq<Event>)
    requires Calls(events)
    ensures CountTraces(events) == CountSyscalls(events)
    ensures CountPallocs(events) == CountPfrees(events)
    ensures 4 * CountSyscalls(events) == |events|
    decreases |events|
  {
    if events != [] {
      CallsBalanced(events[4..]);
      BlockCounts(events[..4]);
      CountsAppend(events[..4], events[4..]);
      assert events == events[..4] + events[4..];
    }
  }

  /** The backend of one thread as the shim sees it. */
  class Backend {
    /** `DataDir`, fixed before the first shim call. */
    const dataDir: Bytes
    var errno: int
    var events: seq<Event>
    var nextBuffer: nat

    ghost predicate Valid()
      reads this
    {
      Calls(events)
    }

    constructor (dataDir: Bytes)
      ensures this.dataDir == dataDir && Valid()
      ensures events == [] && errno == 0 && nextBuffer == 0
    {
      this.dataDir := dataDir;
      errno := 0;
      events := [];
      nextBuffer := 0;
    }

    /** `psprintf("%s/%s", DataDir, path)`: a fresh buffer holding the join. */
    method Psprintf(path: Bytes) returns (buffer: nat, abs: Bytes)
      modifies this
      ensures buffer == old(nextBuffer) && nextBuffer == buffer + 1
      ensures abs == ResolvePath(dataDir, path)
      ensures events == old(events) + [Palloc(buffer, abs)]
      ensures errno == old(errno)
    {
      buffer := nextBuffer;
      nextBuffer := nextBuffer + 1;
      abs := dataDir + [Slash] + path;
      events := events + [Palloc(buffer, abs)];
    }

    /** `elog` below ERROR: records the message and may write `errno`. */
    method Elog(level: int, format: string, arg: Bytes, errnoWrite: Option<int>)
      modifies this
      ensures events == old(events) + [Trace(level, format, arg)]
      ensures errno == Written(old(errno), errnoWrite)
      ensures nextBuffer == old(nextBuffer)
    {
      events := events + [Trace(level, format, arg)];
      if errnoWrite.Some? {
        errno := errnoWrite.value;
      }
    }

    /** `pfree`: releases the buffer and may write `errno`. */
    method PfreeBuffer(buffer: nat, errnoWrite: Option<int>)
      modifies this
      ensures events == old(events) + [Pfree(buffer)]
      ensures errno == Written(old(errno), errnoWrite)
      ensures nextBuffer == old(nextBuffer)
    {
      events := events + [Pfree(buffer)];
      if errnoWrite.Some? {
        errno := errnoWrite.value;
      }
    }

    /** The host primitive: records the request and applies its `errno`
        write. */
    method Primitive(request: Request, errnoWrite: Option<int>)
      modifies this
      ensures events == old(events) + [Syscall(request)]
      ensures errno == Written(old(errno), errnoWrite)
      ensures nextBuffer == old(nextBuffer)
    {
      events := events + [Syscall(request)];
      if errnoWrite.Some? {
        errno := errnoWrite.value;
      }
    }

    /** The save-free-restore step: `errno` survives whatever `pfree` does. */
    method FreeKeepingErrno(buffer: nat, pfreeErrno: Option<int>)
      modifies this
      ensures events == old(events) + [Pfree(buffer)]
      ensures errno == old(errno)
      ensures nextBuffer == old(nextBuffer)
    {
      var saveErrno := errno;
      PfreeBuffer(buffer, pfreeErrno);
      errno := saveErrno;
    }

    method PgliteMkdir(path: Bytes, mode: int, mkdir: (Bytes, int) -> Reply<int>,
                       elogErrno: Option<int>, pfreeErrno: Option<int>) returns (rc: int)
      requires Valid()
      modifies this
      ensures Valid()
      ensures var abs := ResolvePath(dataDir, path);
        && rc == mkdir(abs, mode).value
        && errno == Written(0, mkdir(abs, mode).errnoWrite)
        && events == old(events) + CallEvents(old(nextBuffer), "pglite_mkdir: %s\n", abs, Mkdir(abs, mode))
      ensures nextBuffer == old(nextBuffer) + 1
    {
      var buffer, abs := Psprintf(path);
      Elog(DEBUG1, "pglite_mkdir: %s\n", abs, elogErrno);
      errno := 0;
      var reply := mkdir(abs, mode);
      Primitive(Mkdir(abs, mode), reply.errnoWrite);
      rc := reply.value;
      FreeKeepingErrno(buffer, pfreeErrno);
      assert events == old(events) + CallEvents(buffer, "pglite_mkdir: %s\n", abs, Mkdir(abs, mode));
      CallsExtend(old(events), CallEvents(buffer, "pglite_mkdir: %s\n", abs, Mkdir(abs, mode)));
    }

    method PgliteOpendir(path: Bytes, opendir: Bytes -> Reply<Option<Dir>>,
                         elogErrno: Option<int>, pfreeErrno: Option<int>) returns (dir: Option<Dir>)
      requires Valid()
      modifies this
      ensures Valid()
      ensures var abs := ResolvePath(dataDir, path);
        && dir == opendir(abs).value
        && errno == Written(0, opendir(abs).errnoWrite)
        && events == old(events) + CallEvents(old(nextBuffer), "pglite_opendir: %s\n", abs, Opendir(abs))
      ensures nextBuffer == old(nextBuffer) + 1
    {
      var buffer, abs := Psprintf(path);
      Elog(DEBUG1, "pglite_opendir: %s\n", abs, elogErrno);
      errno := 0;
      var reply := opendir(abs);
      Primitive(Opendir(abs), reply.errnoWrite);
      dir := reply.value;
      FreeKeepingErrno(buffer, pfreeErrno);
      assert events == old(events) + CallEvents(buffer, "pglite_opendir: %s\n", abs, Opendir(abs));
      CallsExtend(old(events), CallEvents(buffer, "pglite_opendir: %s\n", abs, Opendir(abs)));
    }

    method PgliteStat(path: Bytes, buf: StatBuf, stat: Bytes -> StatReply,
                      elogErrno: Option<int>, pfreeErrno: Option<int>) returns (rc: int)
      requires Valid()
      modifies this, buf
      ensures Valid()
      ensures var abs := ResolvePath(dataDir, path);
        && rc == stat(abs).rc
        && buf.data == (match stat(abs).filled case Some(d) => d case None => old(buf.data))
        && errno == Written(0, stat(abs).errnoWrite)
        && events == old(events) + CallEvents(old(nextBuffer), "pglite_stat: %s\n", abs, Stat(abs))
      ensures nextBuffer == old(nextBuffer) + 1
    {
      var buffer, abs := Psprintf(path);
      Elog(DEBUG1, "pglite_stat: %s\n", abs, elogErrno);
      errno := 0;
      var reply := stat(abs);
      if reply.filled.Some? {
        buf.data := reply.filled.value;
      }
      Primitive(Stat(abs), reply.errnoWrite);
      rc := reply.rc;
      FreeKeepingErrno(buffer, pfreeErrno);
      assert events == old(events) + CallEvents(buffer, "pglite_stat: %s\n", abs, Stat(abs));
      CallsExtend(old(events), CallEvents(buffer, "pglite_stat: %s\n", abs, Stat(abs)));
    }

    method PgliteOpen(path: Bytes, flags: int, mode: int, open: (Bytes, int, int) -> Reply<int>,
                      elogErrno: Option<int>, pfreeErrno: Option<int>) returns (fd: int)
      requires Valid()
      modifies this
      ensures Valid()
      ensures var abs := ResolvePath(dataDir, path);
        && fd == open(abs, flags, mode).value
        && errno == Written(0, open(abs, flags, mode).errnoWrite)
        && events == old(events) + CallEvents(old(nextBuffer), "pglite_open: %s\n", abs, Open(abs, flags, mode))
      ensures nextBuffer == old(nextBuffer) + 1
    {
      var buffer, abs := Psprintf(path);
      Elog(DEBUG1, "pglite_open: %s\n", abs, elogErrno);
      errno := 0;
      var reply := open(abs, flags, mode);
      Primitive(Open(abs, flags, mode), reply.errnoWrite);
      fd := reply.value;
      FreeKeepingErrno(buffer, pfreeErrno);
      assert events == old(events) + CallEvents(buffer, "pglite_open: %s\n", abs, Open(abs, flags, mode));
      CallsExtend(old(events), CallEvents(buffer, "pglite_open: %s\n", abs, Open(abs, flags, mode)));
    }
  }
}
