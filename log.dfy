/** The bridge of `pglite-sys/src/log.rs` from the engine's error reports to
    Rust's `log` facade: each report becomes one record, whose level comes
    from the report's severity, whose module path names the C function that
    reported it, and whose line number is dropped when it is not a line. */
module Log {
  import opened Common
  import Utf8

  /** A C `int`. */
  type I32 = x: int | -0x8000_0000 <= x < 0x8000_0000

  /** `u32::try_from` of a C `int`: None for a negative value. */
  function ToU32(x: I32): (r: Option<nat>)
    ensures r.Some? <==> x >= 0
    ensures r.Some? ==> r.value == x
  {
    if x < 0 then None else Some(x)
  }

  /** The levels of the `log` crate, most severe first. */
  datatype Level = Error | Warn | Info | Debug | Trace {
    /** Higher is more severe. */
    function Rank(): nat {
      match this
      case Trace => 0
      case Debug => 1
      case Info => 2
      case Warn => 3
      case Error => 4
    }
  }

  /** `level`: the severity as a `log` level; None when the severity is
      negative or not one the engine defines. */
  function LevelOf(severity: I32): (r: Option<Level>)
    ensures r.Some? ==> DEBUG5 <= severity <= PANIC
  {
    match ToU32(severity)
    case None => None
    case Some(s) =>
      if s in {DEBUG1, DEBUG2, DEBUG3, DEBUG4, DEBUG5} then Some(Trace)
      else if s in {LOG, LOG_SERVER_ONLY} then Some(Debug)
      else if s in {INFO, NOTICE} then Some(Info)
      else if s in {WARNING, WARNING_CLIENT_ONLY} then Some(Warn)
      else if s in {ERROR, FATAL, PANIC} then Some(Error)
      else None
  }

  /** Exactly the severities from DEBUG5 to PANIC have a level. */
  lemma LevelDefinedIff(severity: I32)
    ensures LevelOf(severity).Some? <==> DEBUG5 <= severity <= PANIC
  {
  }

  /** A more severe report never gets a less severe level. */
  lemma LevelMonotone(s: I32, t: I32)
    requires DEBUG5 <= s <= t <= PANIC
    ensures LevelOf(s).Some? && LevelOf(t).Some?
    ensures LevelOf(s).value.Rank() <= LevelOf(t).value.Rank()
  {
  }

  /** The least severity with a given level. */
  function LeastSeverity(l: Level): I32 {
    match l
    case Trace => DEBUG5
    case Debug => LOG
    case Info => INFO
    case Warn => WARNING
    case Error => ERROR
  }

  /** Every level is reached, and the severities that reach it form the
      interval starting at `LeastSeverity`. */
  lemma LevelIsOnto(l: Level, severity: I32)
    ensures LevelOf(LeastSeverity(l)) == Some(l)
    ensures LevelOf(severity) == Some(l) <==>
              LeastSeverity(l) <= severity && (l == Error ==> severity <= PANIC)
              && (l != Error ==> severity < LeastSeverity(Upper(l)))
  {
  }

  /** The level one step more severe; Error is its own. */
  function Upper(l: Level): Level {
    match l
    case Trace => Debug
    case Debug => Info
    case Info => Warn
    case Warn => Error
    case Error => Error
  }

  /** The line number `pglite_log` passes on: none for zero or a negative
      value. */
  function LogLine(lineno: I32): (r: Option<nat>)
    ensures r.Some? ==> 0 < r.value == lineno
  {
    match ToU32(lineno)
    case None => None
    case Some(0) => None
    case Some(line) => Some(line)
  }

  /** The line number `pglite_log_raw_` passes on: none for a negative value
      only. */
  function RawLine(lineno: I32): (r: Option<nat>)
    ensures r.Some? ==> r.value == lineno
  {
    ToU32(lineno)
  }

  /** `pglite_log` keeps exactly the positive line numbers, `pglite_log_raw_`
      also keeps 0; both keep the value itself. */
  lemma LineNumbers(lineno: I32)
    ensures LogLine(lineno).Some? <==> lineno > 0
    ensures RawLine(lineno).Some? <==> lineno >= 0
    ensures LogLine(lineno).Some? ==> LogLine(lineno).value == lineno
    ensures RawLine(lineno).Some? ==> RawLine(lineno).value == lineno
    ensures LogLine(lineno) == (if RawLine(lineno) == Some(0) then None else RawLine(lineno))
  {
  }

  /** `opt_cstr_static`: a null pointer or bytes that are not UTF-8 give
      None. */
  function OptCStrStatic(p: CStr): (r: Option<string>)
    ensures r.Some? <==> p.Ptr? && Utf8.Decode(p.bytes).Some?
    ensures r.Some? ==> r == Utf8.Decode(p.bytes) && Utf8.Encode(r.value) == p.bytes
  {
    match p
    case Null => None
    case Ptr(b) =>
      if Utf8.Decode(b).Some? then Utf8.EncodeDecode(b); Utf8.Decode(b) else None
  }

  /** `opt_cstr`: a null pointer gives None; other bytes are decoded
      lossily. */
  function OptCStr(p: CStr): (r: Option<string>)
    ensures r.Some? <==> p.Ptr?
    ensures r.Some? && Utf8.Decode(p.bytes).Some? ==> r.value == Utf8.Decode(p.bytes).value
  {
    match p
    case Null => None
    case Ptr(b) =>
      if Utf8.Decode(b).Some? then Utf8.LossyOfValid(b); Some(Utf8.Lossy(b)) else Some(Utf8.Lossy(b))
  }

  const ModPrefix: string := "pglite_sys::"

  /** The module path `mod_name_for_func_name` builds for a function. */
  function ModName(funcName: string): string {
    ModPrefix + funcName
  }

  /** Distinct functions get distinct module paths. */
  lemma ModNameInjective(f: string, g: string)
    requires ModName(f) == ModName(g)
    ensures f == g
  {
    assert f == ModName(f)[|ModPrefix|..];
    assert g == ModName(g)[|ModPrefix|..];
  }

  /** The fields of the engine's `ErrorData` that the bridge reads. */
  datatype ErrorData = ErrorData(elevel: I32, message: CStr, filename: CStr, funcname: CStr, lineno: I32)

  /** A `log::Record`. `target` is "" unless set, as the record builder
      leaves it. */
  datatype Record = Record(
    level: Level,
    args: string,
    target: string,
    modulePath: Option<string>,
    file: Option<string>,
    line: Option<nat>)

  /** The record `pglite_log` hands the logger for a report from a backend
      of type `backendType`. */
  function LogRecord(edata: ErrorData, backendType: Bytes): (r: Record)
    ensures r.modulePath.Some?
    ensures r.line.Some? ==> r.line.value > 0
    ensures r.file.Some? <==> edata.filename.Ptr? && Utf8.Decode(edata.filename.bytes).Some?
    ensures r.file.Some? ==> r.file == Utf8.Decode(edata.filename.bytes) && Utf8.Encode(r.file.value) == edata.filename.bytes
  {
    var funcname := OptCStrStatic(edata.funcname);
    Record(
      LevelOf(edata.elevel).GetOr(Error),
      OptCStr(edata.message).GetOr([]),
      Utf8.Lossy(backendType),
      Some(if funcname.Some? then ModName(funcname.value) else "pglite_sys"),
      OptCStrStatic(edata.filename),
      LogLine(edata.lineno))
  }

  /** The record `pglite_log_raw_` hands the logger. */
  function RawRecord(msg: Bytes, filename: CStr, lineno: I32, funcname: CStr): (r: Record)
    ensures r.level == Error
    ensures r.modulePath.Some? ==>
              funcname.Ptr? && |ModPrefix| <= |r.modulePath.value| && r.modulePath.value[..|ModPrefix|] == ModPrefix
    ensures r.file.Some? <==> filename.Ptr? && Utf8.Decode(filename.bytes).Some?
    ensures r.file.Some? ==> r.file == Utf8.Decode(filename.bytes) && Utf8.Encode(r.file.value) == filename.bytes
  {
    var f := OptCStrStatic(funcname);
    Record(
      Error,
      Utf8.Lossy(msg),
      "",
      if f.Some? then Some(ModName(f.value)) else None,
      OptCStrStatic(filename),
      RawLine(lineno))
  }

  /** An unknown or negative severity is logged as an error; a known one at
      its own level. */
  lemma LogLevel(edata: ErrorData, backendType: Bytes)
    ensures LevelOf(edata.elevel).None? ==> LogRecord(edata, backendType).level == Error
    ensures LevelOf(edata.elevel).Some? ==> LogRecord(edata, backendType).level == LevelOf(edata.elevel).value
    ensures LogRecord(edata, backendType).level == Error <==> edata.elevel < DEBUG5 || ERROR <= edata.elevel
  {
  }

  /** `pglite_log` always names a module: the reporting function's when its
      name is UTF-8, `pglite_sys` otherwise; `pglite_log_raw_` names none in
      that case. */
  lemma ModulePaths(edata: ErrorData, backendType: Bytes, msg: Bytes, filename: CStr, lineno: I32, funcname: CStr)
    ensures edata.funcname.Ptr? && Utf8.Decode(edata.funcname.bytes).Some? ==>
              LogRecord(edata, backendType).modulePath == Some(ModPrefix + Utf8.Decode(edata.funcname.bytes).value)
    ensures edata.funcname.Null? || Utf8.Decode(edata.funcname.bytes).None? ==>
              LogRecord(edata, backendType).modulePath == Some("pglite_sys")
    ensures RawRecord(msg, filename, lineno, funcname).modulePath.None? <==>
              funcname.Null? || Utf8.Decode(funcname.bytes).None?
  {
  }

  /** A message that is UTF-8 is logged unchanged: its text encodes back to
      the very bytes of the report. A null message is logged as "". */
  lemma {:induction false} MessagePreserved(edata: ErrorData, backendType: Bytes, msg: Bytes, filename: CStr, lineno: I32, funcname: CStr)
    ensures edata.message.Ptr? && Utf8.Decode(edata.message.bytes).Some? ==>
              Utf8.Encode(LogRecord(edata, backendType).args) == edata.message.bytes
    ensures edata.message.Null? ==> LogRecord(edata, backendType).args == []
    ensures Utf8.Decode(msg).Some? ==> Utf8.Encode(RawRecord(msg, filename, lineno, funcname).args) == msg
  {
    if edata.message.Ptr? && Utf8.Decode(edata.message.bytes).Some? {
      Utf8.LossyOfValid(edata.message.bytes);
      Utf8.EncodeDecode(edata.message.bytes);
    }
    if Utf8.Decode(msg).Some? {
      Utf8.LossyOfValid(msg);
      Utf8.EncodeDecode(msg);
    }
  }

  /** The two globals of the bridge: the memo of module paths, which is
      only ever added to, and what the logger has been handed so far. */
  class Bridge {
    var memo: map<string, string>
    var records: seq<Record>

    /** Every memoised path is the one `ModName` builds. */
    ghost predicate Valid()
      reads this
    {
      forall f | f in memo :: memo[f] == ModName(f)
    }

    constructor ()
      ensures memo == map[] && records == []
      ensures Valid()
    {
      memo := map[];
      records := [];
    }

    /** `mod_name_for_func_name`: the stored path when there is one,
        otherwise a new one, stored for next time. */
    method ModNameForFuncName(funcName: string) returns (modName: string)
      requires Valid()
      modifies this
      ensures Valid()
      ensures modName == ModName(funcName)
      ensures funcName in old(memo) ==> memo == old(memo)
      ensures memo == old(memo)[funcName := modName]
      ensures forall f | f in old(memo) :: f in memo && memo[f] == old(memo)[f]
      ensures records == old(records)
    {
      if funcName in memo {
        modName := memo[funcName];
        return;
      }
      modName := ModName(funcName);
      memo := memo[funcName := modName];
    }

    /** `pglite_log`. */
    method PgliteLog(edata: ErrorData, backendType: Bytes)
      requires Valid()
      modifies this
      ensures Valid()
      ensures records == old(records) + [LogRecord(edata, backendType)]
      ensures var f := OptCStrStatic(edata.funcname);
              memo == if f.Some? then old(memo)[f.value := ModName(f.value)] else old(memo)
    {
      var level := LevelOf(edata.elevel).GetOr(Error);
      var backend := Utf8.Lossy(backendType);
      var message := OptCStr(edata.message);
      var filename := OptCStrStatic(edata.filename);
      var funcname := OptCStrStatic(edata.funcname);
      var lineno := LogLine(edata.lineno);
      var modulePath := "pglite_sys";
      if funcname.Some? {
        modulePath := ModNameForFuncName(funcname.value);
      }
      records := records + [Record(level, message.GetOr([]), backend, Some(modulePath), filename, lineno)];
    }

    /** `pglite_log_raw_`, the `len` bytes at `msg` being `msg`. */
    method PgliteLogRaw(msg: Bytes, filename: CStr, lineno: I32, funcname: CStr)
      requires Valid()
      modifies this
      ensures Valid()
      ensures records == old(records) + [RawRecord(msg, filename, lineno, funcname)]
      ensures var f := OptCStrStatic(funcname);
              memo == if f.Some? then old(memo)[f.value := ModName(f.value)] else old(memo)
    {
      var text := Utf8.Lossy(msg);
      var file := OptCStrStatic(filename);
      var func := OptCStrStatic(funcname);
      var line := RawLine(lineno);
      var modPath: Option<string> := None;
      if func.Some? {
        var m := ModNameForFuncName(func.value);
        modPath := Some(m);
      }
      records := records + [Record(Error, text, "", modPath, file, line)];
    }
  }
}
