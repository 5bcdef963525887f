/**
  The thread count of the multi-threaded runs: the `-c` flag after `main`
  has normalised it against the Go runtime's `GOMAXPROCS` setting.
 */
module Threads {

  /**
    The thread count a request stands for, given the runtime's current
    `GOMAXPROCS` setting `procs` (which the Go runtime keeps at 1 or more).
   */
  function EffectiveThreads(request: int, procs: int): (r: int)
    requires procs >= 1
    ensures r >= 1
    ensures request > 0 ==> r == request
    ensures request <= 0 ==> r == procs
  {
    var clamped := if request < 0 then 0 else request;
    if clamped != 0 then clamped else procs
  }

  /** The two pieces of process state `main` touches: the flag and the runtime setting. */
  class Settings {
    /** `*nproc`, the value of the `-c` flag. */
    var nproc: int
    /** The runtime's `GOMAXPROCS` setting. */
    var maxProcs: int

    ghost predicate Valid()
      reads this
    {
      maxProcs >= 1
    }

    constructor (request: int, procs: int)
      requires procs >= 1
      ensures Valid() && nproc == request && maxProcs == procs
    {
      nproc, maxProcs := request, procs;
    }

    /**
      Clamp a negative request to 0; then either install a positive request as
      the runtime setting, or adopt the runtime setting for 0.
     */
    method Normalise()
      requires Valid()
      modifies this
      ensures Valid()
      ensures nproc == EffectiveThreads(old(nproc), old(maxProcs))
      ensures maxProcs == nproc
    {
      if nproc < 0 {
        nproc := 0;
      }
      if nproc != 0 {
        maxProcs := nproc;
      } else {
        nproc := maxProcs;
      }
    }
  }
}
