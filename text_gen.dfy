/**
  The deterministic pseudo-random text used as the haystack of the regular
  expression benchmarks (`makeText` in go_benchmarks.go), and the process-wide
  buffer that caches it.

  The generator is a 32-bit shift register: every step doubles the state
  modulo 2^32, flips the lowest bit, and folds in the tap mask 0x88888eef when
  the top bit has become set. Each state after a step yields one byte: a
  newline when the state is divisible by 31, otherwise a printable ASCII
  character.
 */
module TextGen {

  /** Go's `byte`. */
  newtype Byte = b: int | 0 <= b < 0x100

  /** The state every fresh generation starts from: `^uint32(0)`. */
  const Seed: bv32 := 0xFFFF_FFFF

  /** The feedback mask folded in when bit 31 is set. */
  const Taps: bv32 := 0x8888_8EEF

  const Newline: Byte := 0x0A

  /** Printable ASCII, space through tilde: the range `0x20 .. 0x7E`. */
  const FirstPrintable: Byte := 0x20
  const LastPrintable: Byte := 0x7E

  /** The bytes the generator may produce. */
  predicate IsTextByte(b: Byte) {
    b == Newline || FirstPrintable <= b <= LastPrintable
  }

  /** One step of the generator. `int32(x) < 0` in the source tests bit 31. */
  function Step(x: bv32): (r: bv32)
    // the taps include bit 31, so folding them in always clears it again
    ensures r < 0x8000_0000
    // the lowest bit tells whether the taps were folded in
    ensures r & 1 == 1 <==> (x + x) ^ 1 < 0x8000_0000
  {
    var y := (x + x) ^ 1;
    if y & 0x8000_0000 != 0 then y ^ Taps else y
  }

  /** The byte emitted for the state reached by a step. */
  function ByteOf(x: bv32): (b: Byte)
    ensures IsTextByte(b)
    ensures b == Newline <==> (x as int) % 31 == 0
  {
    var v := x as int;
    if v % 31 == 0 then Newline
    else (v % (0x7E + 1 - 0x20) + 0x20) as Byte
  }

  /** The state after `k` steps from `x`. */
  function Advance(x: bv32, k: nat): bv32
    decreases k
  {
    if k == 0 then x else Advance(Step(x), k - 1)
  }

  /** The `n` bytes generated from state `x`, one step per byte. */
  function GenFrom(x: bv32, n: nat): (r: seq<Byte>)
    ensures |r| == n
    ensures forall i :: 0 <= i < |r| ==> IsTextByte(r[i])
    decreases n
  {
    if n == 0 then []
    else
      var y := Step(x);
      [ByteOf(y)] + GenFrom(y, n - 1)
  }

  /** What a fresh generation of `n` bytes produces: it always restarts from `Seed`. */
  function Gen(n: nat): seq<Byte>
  {
    GenFrom(Seed, n)
  }

  lemma {:induction false} AdvanceStep(x: bv32, k: nat)
    ensures Advance(x, k + 1) == Step(Advance(x, k))
    decreases k
  {
    if k > 0 {
      AdvanceStep(Step(x), k - 1);
    }
  }

  /** Generating one more byte appends the byte of the next state. */
  lemma {:induction false} GenFromSnoc(x: bv32, n: nat)
    ensures GenFrom(x, n + 1) == GenFrom(x, n) + [ByteOf(Advance(x, n + 1))]
    decreases n
  {
    if n > 0 {
      GenFromSnoc(Step(x), n - 1);
    }
  }

  /** Byte `i` of a generation is the byte of the state after `i + 1` steps. */
  lemma {:induction false} GenFromAt(x: bv32, n: nat, i: nat)
    requires i < n
    ensures GenFrom(x, n)[i] == ByteOf(Advance(x, i + 1))
    decreases i
  {
    if i > 0 {
      GenFromAt(Step(x), n - 1, i - 1);
    }
  }

  /** A shorter generation from the same state is a prefix of a longer one. */
  lemma {:induction false} GenFromPrefix(x: bv32, m: nat, n: nat)
    requires m <= n
    ensures GenFrom(x, m) == GenFrom(x, n)[..m]
    decreases m
  {
    if m > 0 {
      GenFromPrefix(Step(x), m - 1, n - 1);
    }
  }

  /** Byte `i` of the text is a newline exactly when the state after step `i + 1` is divisible by 31. */
  lemma GenNewlineAt(n: nat, i: nat)
    requires i < n
    ensures Gen(n)[i] == Newline <==> (Advance(Seed, i + 1) as int) % 31 == 0
    ensures Gen(n)[i] != Newline ==> FirstPrintable <= Gen(n)[i] <= LastPrintable
  {
    GenFromAt(Seed, n, i);
  }

  /**
    The process-wide `text` buffer. Every buffer it ever holds was generated
    from `Seed` at its own length, which is what `Valid` records.
   */
  class TextCache {
    var text: array<Byte>

    ghost predicate Valid()
      reads this, text
    {
      text[..] == Gen(text.Length)
    }

    /** The nil slice the program starts with. */
    constructor ()
      ensures Valid() && fresh(text) && text.Length == 0
    {
      text := new Byte[0];
    }

    /**
      `makeText(n)`: reuse the cache when it is long enough, otherwise replace
      it by a freshly generated buffer of exactly `n` bytes.
     */
    method MakeText(n: nat) returns (r: seq<Byte>)
      requires Valid()
      modifies this
      ensures Valid()
      ensures r == Gen(n)
      ensures text.Length >= n
      ensures old(text.Length) >= n ==> text == old(text) && r == old(text[..])[..n]
      ensures old(text.Length) < n ==> fresh(text) && text.Length == n
    {
      if text.Length >= n {
        GenFromPrefix(Seed, n, text.Length);
        return text[..n];
      }
      var a := new Byte[n];
      var x := Seed;
      for i := 0 to n
        invariant x == Advance(Seed, i)
        invariant a[..i] == Gen(i)
      {
        AdvanceStep(Seed, i);
        GenFromSnoc(Seed, i);
        x := Step(x);
        a[i] := ByteOf(x);
        assert a[..i + 1] == a[..i] + [a[i]];
      }
      assert a[..] == a[..n];
      text := a;
      r := text[..];
    }
  }

  /** The haystack size of every regular expression benchmark: `1 << 18`. */
  const MatchTextSize: nat := 0x4_0000

  /** The text fetch in `BenchmarkMatch`: all regular expression benchmarks share one cached buffer. */
  method MatchText(cache: TextCache) returns (t: seq<Byte>)
    requires cache.Valid()
    modifies cache
    ensures cache.Valid()
    ensures t == Gen(MatchTextSize) && |t| == 262144
    ensures cache.text.Length >= MatchTextSize
    ensures old(cache.text.Length) >= MatchTextSize ==> cache.text == old(cache.text)
  {
    t := cache.MakeText(MatchTextSize);
  }
}
