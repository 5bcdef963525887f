/**
  The comparison loop at the end of `main`: walk the benchmark registry in
  order, skip every entry whose name the `-r` filter does not match, run each
  remaining one once on one thread and once on the configured number of
  threads, and print one `name,single,multi` record for it.

  The filter, the measurements and the report formatters are outside the
  model: the filter is a predicate on names, `measure(i, p)` stands for the
  total that the `bench` call of phase `p` returns for registry entry `i`
  (every call gets its own, independent value, even when both use the same
  number of threads), and each entry carries its report function. The loop
  produces a trace of the `bench` calls and the printed lines, in the order
  they happen.
 */
module Runner {

  /** A registry entry: its name and the formatter of its throughput. */
  datatype Benchmark = Benchmark(name: string, report: nat -> string)

  /** Which of an entry's two `bench` calls: the single-threaded one comes first. */
  datatype Phase = SingleThread | MultiThread

  /** What the loop does, in order: call `bench`, or print a line (without its newline). */
  datatype Event =
    | Bench(index: nat, phase: Phase, threads: nat)
    | Print(line: string)

  /** One line of standard output, without its newline: `%s,%s,%s`. */
  function Record(b: Benchmark, single: nat, multi: nat): string
  {
    b.name + "," + b.report(single) + "," + b.report(multi)
  }

  /** The indices of the first `n` registry entries whose name matches, in registry order. */
  function Selected(registry: seq<Benchmark>, matches: string -> bool, n: nat): (sel: seq<nat>)
    requires n <= |registry|
    ensures forall k :: 0 <= k < |sel| ==> sel[k] < n && matches(registry[sel[k]].name)
    ensures forall k, l :: 0 <= k < l < |sel| ==> sel[k] < sel[l]
    ensures forall i :: 0 <= i < n && matches(registry[i].name) ==> i in sel
    decreases n
  {
    if n == 0 then []
    else
      var earlier := Selected(registry, matches, n - 1);
      if matches(registry[n - 1].name) then earlier + [n - 1] else earlier
  }

  /** The record printed for registry entry `i`, from its two independent runs. */
  function RecordOf(registry: seq<Benchmark>, measure: (nat, Phase) -> nat, i: nat): string
    requires i < |registry|
  {
    Record(registry[i], measure(i, SingleThread), measure(i, MultiThread))
  }

  /** The events for one selected entry: its two runs, then its record. */
  function EntryEvents(registry: seq<Benchmark>, nproc: nat, measure: (nat, Phase) -> nat, i: nat): seq<Event>
    requires i < |registry|
  {
    [Bench(i, SingleThread, 1), Bench(i, MultiThread, nproc), Print(RecordOf(registry, measure, i))]
  }

  /** What the loop does for the first `n` registry entries. */
  function Trace(registry: seq<Benchmark>, matches: string -> bool, nproc: nat,
                 measure: (nat, Phase) -> nat, n: nat): seq<Event>
    requires n <= |registry|
    decreases n
  {
    if n == 0 then []
    else
      var earlier := Trace(registry, matches, nproc, measure, n - 1);
      if matches(registry[n - 1].name)
      then earlier + EntryEvents(registry, nproc, measure, n - 1)
      else earlier
  }

  /** Standard output: the lines a trace prints, in order. */
  function Printed(trace: seq<Event>): seq<string>
    decreases |trace|
  {
    if trace == [] then []
    else
      var last := trace[|trace| - 1];
      Printed(trace[..|trace| - 1]) + (if last.Print? then [last.line] else [])
  }

  /** `for _, b := range goBenchmarks { if !match { continue }; bench; bench; Printf }` */
  method RunSelected(registry: seq<Benchmark>, matches: string -> bool, nproc: nat,
                     measure: (nat, Phase) -> nat)
    returns (trace: seq<Event>)
    ensures trace == Trace(registry, matches, nproc, measure, |registry|)
  {
    trace := [];
    for i := 0 to |registry|
      invariant trace == Trace(registry, matches, nproc, measure, i)
    {
      var b := registry[i];
      if !matches(b.name) {
        continue;
      }
      var totalSingle := measure(i, SingleThread);
      trace := trace + [Bench(i, SingleThread, 1)];
      var totalMulti := measure(i, MultiThread);
      trace := trace + [Bench(i, MultiThread, nproc)];
      trace := trace + [Print(Record(b, totalSingle, totalMulti))];
    }
  }

  /** Standard output of two traces run one after the other. */
  lemma {:induction false} PrintedAppend(a: seq<Event>, b: seq<Event>)
    ensures Printed(a + b) == Printed(a) + Printed(b)
    decreases |b|
  {
    if b == [] {
      assert a + b == a;
    } else {
      var b' := b[..|b| - 1];
      assert (a + b)[..|a + b| - 1] == a + b';
      assert (a + b)[|a + b| - 1] == b[|b| - 1];
      PrintedAppend(a, b');
    }
  }

  /**
    For each selected entry, in registry order: a run on one thread, then a
    run on `nproc` threads, then its record; nothing for the other entries.
   */
  lemma {:induction false} TraceFollowsSelection(registry: seq<Benchmark>, matches: string -> bool,
                                                 nproc: nat, measure: (nat, Phase) -> nat, n: nat)
    requires n <= |registry|
    ensures |Trace(registry, matches, nproc, measure, n)| == 3 * |Selected(registry, matches, n)|
    ensures forall k :: 0 <= k < |Selected(registry, matches, n)| ==>
      Trace(registry, matches, nproc, measure, n)[3 * k .. 3 * k + 3]
        == EntryEvents(registry, nproc, measure, Selected(registry, matches, n)[k])
    decreases n
  {
    if n > 0 {
      TraceFollowsSelection(registry, matches, nproc, measure, n - 1);
      var sel, earlier := Selected(registry, matches, n - 1), Trace(registry, matches, nproc, measure, n - 1);
      if matches(registry[n - 1].name) {
        var t := Trace(registry, matches, nproc, measure, n);
        assert Selected(registry, matches, n) == sel + [n - 1];
        assert t == earlier + EntryEvents(registry, nproc, measure, n - 1);
        forall k | 0 <= k < |sel|
          ensures t[3 * k .. 3 * k + 3] == earlier[3 * k .. 3 * k + 3]
        {
        }
        assert t[3 * |sel| .. 3 * |sel| + 3] == EntryEvents(registry, nproc, measure, n - 1);
      }
    }
  }

  /** Exactly one record is printed per matching entry, in registry order, and none for the others. */
  lemma {:induction false} OutputFollowsSelection(registry: seq<Benchmark>, matches: string -> bool,
                                                  nproc: nat, measure: (nat, Phase) -> nat, n: nat)
    requires n <= |registry|
    ensures |Printed(Trace(registry, matches, nproc, measure, n))| == |Selected(registry, matches, n)|
    ensures forall k :: 0 <= k < |Selected(registry, matches, n)| ==>
      Printed(Trace(registry, matches, nproc, measure, n))[k]
        == RecordOf(registry, measure, Selected(registry, matches, n)[k])
    decreases n
  {
    if n > 0 {
      OutputFollowsSelection(registry, matches, nproc, measure, n - 1);
      var sel, earlier := Selected(registry, matches, n - 1), Trace(registry, matches, nproc, measure, n - 1);
      if matches(registry[n - 1].name) {
        var entry := EntryEvents(registry, nproc, measure, n - 1);
        PrintedAppend(earlier, entry);
        assert entry[..2] == [entry[0], entry[1]] && [entry[0], entry[1]][..1] == [entry[0]];
        assert Printed([entry[0]]) == [];
        assert Printed(entry) == [RecordOf(registry, measure, n - 1)];
        assert Selected(registry, matches, n) == sel + [n - 1];
      }
    }
  }

  /** Every `bench` call of a trace is on one thread or on `nproc` threads. */
  lemma {:induction false} TraceThreads(registry: seq<Benchmark>, matches: string -> bool,
                                        nproc: nat, measure: (nat, Phase) -> nat, n: nat)
    requires n <= |registry|
    ensures forall e :: e in Trace(registry, matches, nproc, measure, n) && e.Bench? ==>
      e.threads == 1 || e.threads == nproc
    decreases n
  {
    if n > 0 {
      TraceThreads(registry, matches, nproc, measure, n - 1);
    }
  }

  /** A filter that matches no name selects nothing. */
  lemma {:induction false} NoMatchSelectsNone(registry: seq<Benchmark>, matches: string -> bool, n: nat)
    requires n <= |registry|
    requires forall i :: 0 <= i < |registry| ==> !matches(registry[i].name)
    ensures Selected(registry, matches, n) == []
    decreases n
  {
    if n > 0 {
      NoMatchSelectsNone(registry, matches, n - 1);
    }
  }

  /** A filter that matches nothing prints nothing and runs nothing. */
  lemma NoMatchNoOutput(registry: seq<Benchmark>, matches: string -> bool,
                        nproc: nat, measure: (nat, Phase) -> nat)
    requires forall i :: 0 <= i < |registry| ==> !matches(registry[i].name)
    ensures Trace(registry, matches, nproc, measure, |registry|) == []
  {
    NoMatchSelectsNone(registry, matches, |registry|);
    TraceFollowsSelection(registry, matches, nproc, measure, |registry|);
  }

  /** A filter that matches every name selects every entry, in registry order. */
  lemma {:induction false} AllMatchSelectsAll(registry: seq<Benchmark>, matches: string -> bool, n: nat)
    requires n <= |registry|
    requires forall i :: 0 <= i < |registry| ==> matches(registry[i].name)
    ensures |Selected(registry, matches, n)| == n
    ensures forall i :: 0 <= i < n ==> Selected(registry, matches, n)[i] == i
    decreases n
  {
    if n > 0 {
      AllMatchSelectsAll(registry, matches, n - 1);
    }
  }

  /** With a filter matching every name, line `i` is the record of registry entry `i`. */
  lemma AllMatchOneLineEach(registry: seq<Benchmark>, matches: string -> bool,
                            nproc: nat, measure: (nat, Phase) -> nat)
    requires forall i :: 0 <= i < |registry| ==> matches(registry[i].name)
    ensures |Printed(Trace(registry, matches, nproc, measure, |registry|))| == |registry|
    ensures forall i :: 0 <= i < |registry| ==>
      Printed(Trace(registry, matches, nproc, measure, |registry|))[i] == RecordOf(registry, measure, i)
  {
    AllMatchSelectsAll(registry, matches, |registry|);
    OutputFollowsSelection(registry, matches, nproc, measure, |registry|);
  }

  /** The fields of a record, split at every comma (no quoting). */
  function Fields(line: string): (r: seq<string>)
    ensures |r| >= 1
    decreases |line|
  {
    if line == [] then [""]
    else
      var rest := Fields(line[1..]);
      if line[0] == ',' then [""] + rest
      else [[line[0]] + rest[0]] + rest[1..]
  }

  lemma {:induction false} FieldsOfCommaFree(s: string)
    requires ',' !in s
    ensures Fields(s) == [s]
    decreases |s|
  {
    if s != [] {
      FieldsOfCommaFree(s[1..]);
      assert [s[0]] + s[1..] == s;
    }
  }

  lemma {:induction false} FieldsSplitFirst(a: string, rest: string)
    requires ',' !in a
    ensures Fields(a + "," + rest) == [a] + Fields(rest)
    decreases |a|
  {
    if a == [] {
      assert a + "," + rest == [','] + rest;
    } else {
      assert (a + "," + rest)[1..] == a[1..] + "," + rest;
      FieldsSplitFirst(a[1..], rest);
      assert [a[0]] + a[1..] == a;
    }
  }

  /**
    A record splits back into the name and the two reports, provided none of
    them contains a comma; the harness itself does not enforce that.
   */
  lemma RecordFields(b: Benchmark, single: nat, multi: nat)
    requires ',' !in b.name && ',' !in b.report(single) && ',' !in b.report(multi)
    ensures Fields(Record(b, single, multi)) == [b.name, b.report(single), b.report(multi)]
  {
    var s, m := b.report(single), b.report(multi);
    assert Record(b, single, multi) == b.name + "," + (s + "," + m);
    FieldsSplitFirst(b.name, s + "," + m);
    FieldsSplitFirst(s, m);
    FieldsOfCommaFree(m);
  }

  /** The names of the registry, `goBenchmarks`, in registration order. */
  const RegistryNames: seq<string> := [
    "regexp.Match easy",
    "regexp.Match easy (i)",
    "regexp.Match easy2",
    "regexp.Match medium",
    "regexp.Match hard",
    "regexp.Match hard2",
    "ECDSA-P256 Sign",
    "ECDSA-P256 Verify",
    "RSA2048 Sign",
    "RSA2048 3-prime Sign",
    "AES-128-GCM Enc",
    "ChaCha20-Poly1305 Enc",
    "html.EscapeString",
    "html.UnescapeString",
    "compress/gzip compression Twain, -8",
    "compress/gzip decompression Twain, -d",
    "compress/gzip compression digits, -8",
    "compress/gzip decompression digits"
  ]

  /** Registry names are unique. */
  lemma RegistryNamesDistinct()
    ensures forall i, j :: 0 <= i < j < |RegistryNames| ==> RegistryNames[i] != RegistryNames[j]
  {
  }

  /** Over the program's own registry, whatever the filter, no name is reported twice. */
  lemma RegistryRecordsNamedOnce(registry: seq<Benchmark>, matches: string -> bool)
    requires |registry| == |RegistryNames|
    requires forall i :: 0 <= i < |registry| ==> registry[i].name == RegistryNames[i]
    ensures forall k, l :: 0 <= k < l < |Selected(registry, matches, |registry|)| ==>
      registry[Selected(registry, matches, |registry|)[k]].name
        != registry[Selected(registry, matches, |registry|)[l]].name
  {
    RegistryNamesDistinct();
  }

  /**
    The record of "compress/gzip compression Twain, -8" has four fields, not
    three: the name itself contains the separator.
   */
  lemma TwainRecordFields(b: Benchmark, single: nat, multi: nat)
    requires b.name == RegistryNames[14]
    requires ',' !in b.report(single) && ',' !in b.report(multi)
    ensures Fields(Record(b, single, multi))
      == ["compress/gzip compression Twain", " -8", b.report(single), b.report(multi)]
  {
    var s, m := b.report(single), b.report(multi);
    var head, tail := "compress/gzip compression Twain", " -8";
    assert b.name == head + "," + tail;
    assert Record(b, single, multi) == head + "," + (tail + "," + (s + "," + m));
    FieldsSplitFirst(head, tail + "," + (s + "," + m));
    FieldsSplitFirst(tail, s + "," + m);
    FieldsSplitFirst(s, m);
    FieldsOfCommaFree(m);
  }
}
