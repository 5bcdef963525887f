/**
  The end of `bench`: once every worker has sent its operation count on the
  buffered channel and the channel is closed, the counts are drained and
  added up. The channel hands them over in whatever order the workers
  finished, so the total must not depend on that order.
 */
module Aggregate {

  /** The total of a sequence of per-worker counts. */
  function Sum(counts: seq<nat>): nat
  {
    if counts == [] then 0 else counts[0] + Sum(counts[1..])
  }

  /** Adding one more count at the end adds it to the total. */
  lemma {:induction false} SumSnoc(counts: seq<nat>, c: nat)
    ensures Sum(counts + [c]) == Sum(counts) + c
    decreases |counts|
  {
    if counts != [] {
      assert (counts + [c])[1..] == counts[1..] + [c];
      SumSnoc(counts[1..], c);
    }
  }

  /** Taking one count out of the middle takes it out of the total. */
  lemma {:induction false} SumRemove(counts: seq<nat>, i: nat)
    requires i < |counts|
    ensures Sum(counts) == counts[i] + Sum(counts[..i] + counts[i + 1..])
    decreases |counts|
  {
    if i > 0 {
      SumRemove(counts[1..], i - 1);
      assert counts[1..][..i - 1] + counts[1..][i..] == (counts[..i] + counts[i + 1..])[1..];
    } else {
      assert counts[..0] + counts[1..] == counts[1..];
    }
  }

  /** Taking one count out of a sequence takes one occurrence out of its multiset. */
  lemma MultisetRemove(counts: seq<nat>, i: nat)
    requires i < |counts|
    ensures multiset(counts[..i] + counts[i + 1..]) == multiset(counts) - multiset{counts[i]}
  {
    assert counts == counts[..i] + [counts[i]] + counts[i + 1..];
  }

  /** The total is the same whatever order the counts are delivered in. */
  lemma {:induction false} SumPermutation(sent: seq<nat>, delivered: seq<nat>)
    requires multiset(sent) == multiset(delivered)
    ensures Sum(sent) == Sum(delivered)
    decreases |sent|
  {
    if sent == [] {
      assert |delivered| == |multiset(delivered)| == 0;
    } else {
      var c := sent[0];
      assert c in multiset(delivered);
      var i :| 0 <= i < |delivered| && delivered[i] == c;
      MultisetRemove(sent, 0);
      MultisetRemove(delivered, i);
      assert sent[..0] + sent[1..] == sent[1..];
      SumPermutation(sent[1..], delivered[..i] + delivered[i + 1..]);
      SumRemove(delivered, i);
    }
  }

  /** `for t := range sum { total += t }`: drain the closed channel in delivery order. */
  method Drain(delivered: seq<nat>) returns (total: nat)
    ensures total == Sum(delivered)
  {
    total := 0;
    for i := 0 to |delivered|
      invariant total == Sum(delivered[..i])
    {
      SumSnoc(delivered[..i], delivered[i]);
      assert delivered[..i + 1] == delivered[..i] + [delivered[i]];
      total := total + delivered[i];
    }
    assert delivered[..|delivered|] == delivered;
  }

  /**
    What `bench` returns: the workers' counts, delivered in any order, add up
    to exactly their sum, with nothing lost and nothing counted twice.
   */
  method Collect(sent: seq<nat>, delivered: seq<nat>) returns (total: nat)
    requires multiset(delivered) == multiset(sent)
    ensures total == Sum(sent)
  {
    total := Drain(delivered);
    SumPermutation(sent, delivered);
  }
}
