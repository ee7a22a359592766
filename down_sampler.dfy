/**
 * `DownSampler` of the kite filter: a latch that takes a new input every
 * `factor`-th call and otherwise repeats the last one it took.
 * Samples are modelled as reals and `factor` as an integer.
 */
module DownSampling {

  /** `count % factor === 0` for a positive call count `n`: JavaScript's `%`
      takes the sign of `n`, so it is 0 exactly when `factor` divides `n`, and
      `n % 0` is `NaN`, which never equals 0. */
  predicate Latches(factor: int, n: int)
  {
    factor != 0 && n % factor == 0
  }

  /** The sample held after the calls that received `samples`. */
  ghost function Latched(factor: int, samples: seq<real>): real
  {
    if samples == [] then 0.0
    else if Latches(factor, |samples|) then samples[|samples| - 1]
    else Latched(factor, samples[..|samples| - 1])
  }

  /** The last call number up to `n` that latches, or 0 when none does. */
  function LastLatch(factor: int, n: nat): (k: nat)
    ensures k <= n && (k == 0 || Latches(factor, k))
    ensures forall j :: k < j <= n ==> !Latches(factor, j)
  {
    if n == 0 then 0 else if Latches(factor, n) then n else LastLatch(factor, n - 1)
  }

  /** The latch holds the input of the last call whose number is a multiple
      of `factor`, and 0 when there has been none. */
  lemma {:induction false} LatchedIsLastLatch(factor: int, samples: seq<real>)
    ensures var k := LastLatch(factor, |samples|);
            Latched(factor, samples) == if k == 0 then 0.0 else samples[k - 1]
    decreases |samples|
  {
    if samples != [] && !Latches(factor, |samples|) {
      var init := samples[..|samples| - 1];
      LatchedIsLastLatch(factor, init);
      var k := LastLatch(factor, |init|);
      assert k == 0 || samples[k - 1] == init[k - 1];
    }
  }

  /** With `factor == 1` every call passes its own input through. */
  lemma FactorOnePassesThrough(samples: seq<real>)
    requires samples != []
    ensures Latched(1, samples) == samples[|samples| - 1]
  {
  }

  /** With `factor == 0` the latch never takes an input. */
  lemma {:induction false} FactorZeroHoldsZero(samples: seq<real>)
    ensures Latched(0, samples) == 0.0
    decreases |samples|
  {
    if samples != [] {
      FactorZeroHoldsZero(samples[..|samples| - 1]);
    }
  }

  class DownSampler {
    const factor: int
    var currentSample: real
    var count: int
    /** The inputs of the calls so far. */
    ghost var history: seq<real>

    ghost predicate Valid()
      reads this
    {
      count == |history| && currentSample == Latched(factor, history)
    }

    constructor (factor: int)
      ensures Valid() && this.factor == factor && history == []
      ensures count == 0 && currentSample == 0.0
    {
      this.factor := factor;
      currentSample := 0.0;
      count := 0;
      history := [];
    }

    /** `process(sample)`: count the call, latch the input on every
        `factor`-th call, return what the latch holds. */
    method Process(sample: real) returns (r: real)
      requires Valid()
      modifies this
      ensures Valid() && history == old(history) + [sample]
      ensures count == old(count) + 1
      ensures Latches(factor, count) ==> r == sample
      ensures !Latches(factor, count) ==> r == old(currentSample)
      ensures r == currentSample
    {
      count := count + 1;
      history := history + [sample];
      assert history[..|history| - 1] == old(history);
      if factor != 0 && count % factor == 0 {
        currentSample := sample;
      }
      r := currentSample;
    }
  }
}
