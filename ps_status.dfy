/** The process-title stubs of `pglite-sys/src/shim/ps_status.rs`. An
    embedded engine has no process title of its own, so the stubs hand
    `argv` back, ignore what the engine wants displayed, and report an
    empty, null display. */
module PsStatus {
  import opened Common

  /** A `char **` address. */
  type Argv = nat

  /** `save_ps_display_args`: `argv` comes back untouched and `argc` plays
      no part in the result. */
  function SavePsDisplayArgs(argc: int, argv: Argv): (r: Argv)
    ensures r == argv
  {
    argv
  }

  /** The `c_int` the caller passes by `&mut`. */
  class CInt {
    var value: int

    constructor (value: int)
      ensures this.value == value
    {
      this.value := value;
    }
  }

  /** What the engine's own `ps_status.c` would keep: the text shown as the
      process title. The stubs never touch it. */
  class PsDisplay {
    // The Rust stubs keep no state: this field exists only so that "no
    // effect" can be stated as a frame (`unchanged(this)`).
    var shown: Bytes

    constructor ()
      ensures shown == []
    {
      shown := [];
    }

    /** `init_ps_display`: no effect, whatever `fixedPart` is. */
    method InitPsDisplay(fixedPart: CStr)
      ensures unchanged(this)
    {
    }

    /** `set_ps_display`: no effect, whatever `activity` is. */
    method SetPsDisplay(activity: CStr)
      ensures unchanged(this)
    {
    }

    /** `get_ps_display`: stores 0 in `*displen`, returns null, and changes
        nothing else. */
    method GetPsDisplay(displen: CInt) returns (r: CStr)
      modifies displen
      ensures displen.value == 0 && r == Null
      ensures unchanged(this)
    {
      displen.value := 0;
      r := Null;
    }
  }
}
