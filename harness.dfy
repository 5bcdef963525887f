/**
  The sequential part of `main`: normalise the thread count, then run and
  report every selected benchmark with it.
 */
module Harness {
  import Threads
  import Runner

  method RunMain(settings: Threads.Settings, registry: seq<Runner.Benchmark>,
                 matches: string -> bool, measure: (nat, Runner.Phase) -> nat)
    returns (trace: seq<Runner.Event>)
    requires settings.Valid()
    modifies settings
    ensures settings.Valid()
    ensures settings.nproc == Threads.EffectiveThreads(old(settings.nproc), old(settings.maxProcs))
    // the runtime is left running with the thread count the benchmarks use
    ensures settings.maxProcs == settings.nproc
    ensures trace == Runner.Trace(registry, matches, settings.nproc, measure, |registry|)
    // no benchmark is ever run on zero threads
    ensures forall e :: e in trace && e.Bench? ==> e.threads >= 1
  {
    settings.Normalise();
    trace := Runner.RunSelected(registry, matches, settings.nproc, measure);
    Runner.TraceThreads(registry, matches, settings.nproc, measure, |registry|);
  }
}
