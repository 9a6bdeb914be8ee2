/** The signal-mask stubs of `pglite-sys/src/shim/pqsignal.c`. The host
    delivers no signals to the engine's thread, so the engine's three
    signal-set globals are plain thread-local storage that nothing updates,
    `pqinitmask` does nothing and `pqsigsetmask` only writes a line to
    standard error. */
module PqSignal {

  /** A `sigset_t`, as the set of signal numbers it holds. */
  datatype SigSet = SigSet(signals: set<nat>)

  /** One `fprintf` to standard error: its format and its argument. */
  datatype StderrWrite = Fprintf(format: string, mask: SigSet)

  const SetMaskFormat: string := "pqlite: pqsigsetmask: %x\n"

  /** The process's standard error stream. */
  class Stderr {
    var writes: seq<StderrWrite>

    constructor ()
      ensures writes == []
    {
      writes := [];
    }
  }

  /** The `__thread sigset_t` globals `UnBlockSig`, `BlockSig` and
      `StartupBlockSig` of one thread; every thread has its own object. */
  class ThreadSignals {
    var unBlockSig: SigSet
    var blockSig: SigSet
    var startupBlockSig: SigSet

    /** Thread-local storage starts zeroed: three empty sets. */
    constructor ()
      ensures unBlockSig == blockSig == startupBlockSig == SigSet({})
    {
      unBlockSig, blockSig, startupBlockSig := SigSet({}), SigSet({}), SigSet({});
    }

    /** `pqinitmask`: the body is empty, so it may change nothing at all
        (no `modifies` clause); calling it twice leaves the state calling
        it once leaves, which is the state before. */
    method PqInitMask()
      ensures unchanged(this)
    {
    }

    /** `pqsigsetmask`: one line on standard error mentioning the mask, and
        no masking. The C function has no `return` statement, so what the
        caller reads is whatever the return register held: `garbage`. */
    method PqSigSetMask(mask: SigSet, stderr: Stderr, garbage: int) returns (r: int)
      modifies stderr
      ensures stderr.writes == old(stderr.writes) + [Fprintf(SetMaskFormat, mask)]
      ensures unchanged(this)
      ensures r == garbage
    {
      stderr.writes := stderr.writes + [Fprintf(SetMaskFormat, mask)];
      r := garbage;
    }
  }
}
