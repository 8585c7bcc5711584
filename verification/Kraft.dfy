/** Kraft's inequality, and what the budget check of `PrefixCode` has to do with it. */
module Kraft {
  import opened Bits

  /** The Kraft sum times 2^n: how much of the space of n-bit strings is taken. */
  ghost function KraftSum(words: seq<seq<bool>>, n: nat): nat
    requires forall i :: 0 <= i < |words| ==> |words[i]| <= n
  {
    if words == [] then 0 else Pow2(n - |words[0]|) + KraftSum(words[1..], n)
  }

  ghost predicate Apart(x: seq<bool>, words: seq<seq<bool>>) {
    forall y :: y in words ==> !(x <= y) && !(y <= x)
  }

  /** Pairwise incomparable words. */
  ghost predicate PairwiseApart(words: seq<seq<bool>>) {
    words == [] || (Apart(words[0], words[1..]) && PairwiseApart(words[1..]))
  }

  /** What follows `b` in the words that start with `b`. */
  ghost function TailsAfter(words: seq<seq<bool>>, b: bool): (t: seq<seq<bool>>)
    ensures forall y :: y in t ==> [b] + y in words
  {
    if words == [] then []
    else
      var t := TailsAfter(words[1..], b);
      if words[0] != [] && words[0][0] == b then
        assert [b] + words[0][1..] == words[0];
        [words[0][1..]] + t
      else t
  }

  lemma PrefixOfCons(b: bool, x: seq<bool>, y: seq<bool>)
    ensures x <= y <==> [b] + x <= [b] + y
  {
    if [b] + x <= [b] + y {
      assert x == ([b] + x)[1..] && y == ([b] + y)[1..];
    }
  }

  lemma {:induction false} TailsApart(words: seq<seq<bool>>, b: bool)
    requires PairwiseApart(words)
    ensures PairwiseApart(TailsAfter(words, b))
  {
    if words != [] {
      TailsApart(words[1..], b);
      if words[0] != [] && words[0][0] == b {
        var x, t := words[0][1..], TailsAfter(words[1..], b);
        forall y | y in t
          ensures !(x <= y) && !(y <= x)
        {
          assert words[0] == [b] + x && [b] + y in words[1..];
          PrefixOfCons(b, x, y);
          PrefixOfCons(b, y, x);
        }
      }
    }
  }

  lemma {:induction false} SumOfTails(words: seq<seq<bool>>, n: nat)
    requires forall i :: 0 <= i < |words| ==> 0 < |words[i]| <= n + 1
    ensures forall b :: forall i :: 0 <= i < |TailsAfter(words, b)| ==> |TailsAfter(words, b)[i]| <= n
    ensures KraftSum(words, n + 1) == KraftSum(TailsAfter(words, false), n) + KraftSum(TailsAfter(words, true), n)
  {
    if words != [] {
      SumOfTails(words[1..], n);
    }
  }

  lemma ApartIsNotEmpty(words: seq<seq<bool>>, i: nat)
    requires PairwiseApart(words) && i < |words| && |words| > 1
    ensures words[i] != []
  {
    var other := words[1..][if i == 0 then 0 else i - 1];
    assert other in words[1..];
    assert !([] <= other) || words[0] != [];
    assert !(other <= words[0]);
  }

  /** Kraft's inequality. */
  lemma {:induction false} KraftInequality(words: seq<seq<bool>>, n: nat)
    requires PairwiseApart(words)
    requires forall i :: 0 <= i < |words| ==> |words[i]| <= n
    ensures KraftSum(words, n) <= Pow2(n)
    decreases n
  {
    if |words| == 1 {
      assert words[1..] == [];
      Pow2Monotone(n - |words[0]|, n);
    } else if words != [] {
      forall i: nat | i < |words|
        ensures 0 < |words[i]|
      {
        ApartIsNotEmpty(words, i);
      }
      SumOfTails(words, n - 1);
      TailsApart(words, false);
      TailsApart(words, true);
      KraftInequality(TailsAfter(words, false), n - 1);
      KraftInequality(TailsAfter(words, true), n - 1);
    }
  }
}
