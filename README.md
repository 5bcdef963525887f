# cf_benchmark harness core, modelled in Dafny

`go_benchmarks.go` is a throughput benchmark: for every registered benchmark
whose name matches the `-r` filter it runs the workload for `-t` seconds on one
thread and on `-c` threads, sums the per-goroutine operation counts, and prints
one `name,single,multi` line. This project models the sequential,
deterministic parts of that program and proves their properties:

- `text_gen.dfy` (module `TextGen`): `makeText`, the 32-bit shift-register
  text generator, and the process-wide `text` cache it grows lazily. The state
  is a `bv32`; `Gen(n)` is the pure specification of a fresh generation and
  the class `TextCache` holds the cache buffer as an `array`; a cache that is
  too short is replaced by a fresh buffer that a loop fills, proved against `Gen`.
- `threads.dfy` (module `Threads`): the normalisation of `*nproc` in `main`
  against the runtime's `GOMAXPROCS` setting, as a class holding both values.
- `aggregate.dfy` (module `Aggregate`): the drain loop at the end of `bench`
  that adds up the per-worker totals, and the proof that the total does not
  depend on the order the channel delivers them in.
- `runner.dfy` (module `Runner`): the filter-and-report loop of `main`, with
  the filter as a predicate on names, each entry's report formatter as a
  function value, and the total of each `bench` call as an oracle
  `measure(index, phase)`, so the single- and multi-threaded calls of an entry
  have independent totals even when both use one thread. The loop returns the
  ordered trace of what it does: each `bench` call and each printed line.
- `harness.dfy` (module `Harness`): the two put together, as `main` runs them.

Two facts about the program's behaviour that the model records:

- A negative or zero `-c` is accepted: a negative request is clamped to 0,
  and 0 is replaced by the runtime's processor setting.
- Nothing keeps the separator out of the fields: three registry
  names ("compress/gzip compression Twain, -8", "compress/gzip decompression
  Twain, -d", "compress/gzip compression digits, -8") contain a comma, so
  their records split into four fields (`Runner.TwainRecordFields` shows it for
  the first). `Runner.RecordFields` proves that a record splits back into its
  three fields whenever none of them holds a comma.

## Model

| member | source | states |
|---|---|---|
| TextGen.Step | go_benchmarks.go:57-61 | after a step bit 31 of the state is always clear (the tap mask contains bit 31); the low bit is 1 exactly when no taps were folded in |
| TextGen.ByteOf | go_benchmarks.go:62-66 | every byte is a newline or printable ASCII 0x20..0x7E, and it is a newline exactly when the state is divisible by 31 |
| TextGen.GenFrom | go_benchmarks.go:54-67 | a generation of `n` bytes has exactly `n` bytes, all newline or printable |
| TextGen.AdvanceStep | go_benchmarks.go:56-61 | the state after `k + 1` loop iterations is one step past the state after `k` |
| TextGen.GenFromSnoc | go_benchmarks.go:56-67 | generating one more byte appends the byte of the next state and changes nothing before it |
| TextGen.GenFromAt | go_benchmarks.go:56-66 | byte `i` is the byte of the state after `i + 1` steps from the start |
| TextGen.GenFromPrefix | go_benchmarks.go:51-55 | a generation of `m` bytes is a prefix of one of `n >= m` bytes from the same start, so a cache hit equals a fresh generation |
| TextGen.GenNewlineAt | go_benchmarks.go:62-66 | byte `i` of the text is a newline iff the state after step `i + 1` from 0xFFFFFFFF is divisible by 31, and printable otherwise |
| TextGen.TextCache.constructor | go_benchmarks.go:47 | the cache starts empty and consistent with the generator |
| TextGen.TextCache.MakeText | go_benchmarks.go:50-69 | returns exactly the `n` bytes a fresh generation from the seed gives; a long enough cache is kept unchanged and its first `n` bytes returned, otherwise it is replaced by a fresh buffer of exactly `n` bytes; afterwards the cache holds at least `n` bytes and is still a generation from the seed |
| TextGen.MatchText | go_benchmarks.go:73-74 | every regular expression benchmark gets the same 262144-byte text; afterwards the cache holds at least that many bytes, so every later setup reuses the buffer without reallocating it |
| Threads.EffectiveThreads | go_benchmarks.go:345-353 | the effective thread count is at least 1; it is the runtime setting for every request `<= 0` and the request itself for every positive one |
| Threads.Settings.constructor | go_benchmarks.go:31 | the flag holds the request and the runtime setting is at least 1 |
| Threads.Settings.Normalise | go_benchmarks.go:345-353 | clamping then replacing leaves `nproc` equal to the effective thread count of the old request, and the runtime setting equal to `nproc` |
| Aggregate.SumSnoc | go_benchmarks.go:323-326 | adding one more drained count adds it to the total |
| Aggregate.SumRemove | go_benchmarks.go:323-326 | removing one count from anywhere in the sequence removes it from the total |
| Aggregate.MultisetRemove | go_benchmarks.go:323-326 | removing one count from the sequence removes one occurrence from its multiset |
| Aggregate.SumPermutation | go_benchmarks.go:323-328 | any two delivery orders of the same counts give the same total |
| Aggregate.Drain | go_benchmarks.go:323-328 | the drain loop returns exactly the sum of the delivered counts |
| Aggregate.Collect | go_benchmarks.go:315-328 | whatever order the workers' counts arrive in, `bench` returns exactly their sum: nothing lost, nothing counted twice |
| Runner.Selected | go_benchmarks.go:359-363 | the selected indices are exactly the matching entries, each once, in strictly increasing registry order |
| Runner.RunSelected | go_benchmarks.go:359-368 | the loop's sequence of `bench` calls and printed lines is exactly the specified trace |
| Runner.PrintedAppend | go_benchmarks.go:367 | the lines printed by two stretches of the loop are those of the first followed by those of the second |
| Runner.TraceFollowsSelection | go_benchmarks.go:359-368 | for each selected entry, in registry order, the loop calls `bench` on one thread, then on `nproc` threads, then prints that entry's record, before touching the next entry; unselected entries cause nothing |
| Runner.OutputFollowsSelection | go_benchmarks.go:359-368 | there is one printed line per selected entry, the `k`-th being `name,report(t1),report(t2)` of the `k`-th selected entry, with `t1` and `t2` the totals of its own two runs |
| Runner.TraceThreads | go_benchmarks.go:365-366 | every `bench` call uses one thread or `nproc` threads |
| Runner.NoMatchSelectsNone | go_benchmarks.go:359-363 | a filter matching no name selects no entry |
| Runner.NoMatchNoOutput | go_benchmarks.go:359-368 | a filter matching no name prints no line and runs no benchmark: the trace is empty |
| Runner.AllMatchSelectsAll | go_benchmarks.go:359-363 | a filter matching every name selects every entry, in registry order |
| Runner.AllMatchOneLineEach | go_benchmarks.go:359-368 | a filter matching every name prints one line per registry entry, line `i` being the record of entry `i` |
| Runner.RecordFields | go_benchmarks.go:367 | a record splits on commas back into the name and the two reports when none of them contains a comma |
| Runner.RegistryNamesDistinct | go_benchmarks.go:83-294 | the eighteen registry names are pairwise distinct |
| Runner.RegistryRecordsNamedOnce | go_benchmarks.go:359-367 | over the program's own registry, whatever the filter, no two selected entries (so no two printed records) carry the same name |
| Runner.TwainRecordFields | go_benchmarks.go:223 | the record of "compress/gzip compression Twain, -8" splits into four fields |
| Harness.RunMain | go_benchmarks.go:345-368 | after normalisation the runtime setting equals the effective thread count, the loop runs with it and produces the specified trace, and no benchmark ever runs on zero threads |

## Left out

- Goroutines, the `sync.WaitGroup` and the buffered channel of `bench`: concurrency; only the drain of the closed channel is modelled, with the delivery order as an input that is a permutation of the sent counts.
- The wall-clock loop of each worker: timing cannot be stated statically; a worker's count is an input, and the total of each `bench` call is the oracle `measure(index, phase)`.
- The workloads (regular expression matching, ECDSA, RSA, AES-GCM, ChaCha20-Poly1305, HTML escaping, gzip): calls into libraries that are not part of this model; only their names are kept.
- The report functions: floating-point formatting; each entry carries its formatter as an opaque function value.
- Flag parsing, the CPU profile, the corpus file reads, `runtime.NumCPU` and the `log` output: I/O and runtime plumbing; the runtime's `GOMAXPROCS` setting is a field assumed to be at least 1, as the Go runtime keeps it.
- Compiling the `-r` pattern and the `log.Fatal` aborts: the filter is a predicate on names; process aborts are not modelled.
- TextGen.TextCache.MakeText: returns the bytes as a value; that the Go result slice aliases the cache buffer is not modelled. A negative `n` (which makes the Go code panic) is excluded by the `nat` parameter.
- Aggregate.Drain: totals are unbounded integers; overflow of Go's `int` is not modelled.
