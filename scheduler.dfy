/**
 * The batch schedule of `extractImages`: the candidate list cut into slices
 * of 100, the interval drawn after each batch, and the wait before the next
 * batch, `randomInterval - (endTime - startTime)` when that is positive.
 */
module Scheduler {

  /** The number of candidates fetched concurrently in one batch. */
  const BatchSize: nat := 100

  /** `images.slice(i, i + 100)` for `i = 0, 100, 200, …` below the length. */
  function Batches<T>(s: seq<T>): seq<seq<T>>
    decreases |s|
  {
    if |s| == 0 then []
    else if |s| <= BatchSize then [s]
    else [s[..BatchSize]] + Batches(s[BatchSize..])
  }

  /** The concatenation of a sequence of batches. */
  function Flatten<T>(batches: seq<seq<T>>): seq<T>
    decreases |batches|
  {
    if |batches| == 0 then [] else batches[0] + Flatten(batches[1..])
  }

  /** ⌈n / 100⌉. */
  function NumBatches(n: nat): nat
  {
    (n + BatchSize - 1) / BatchSize
  }

  /** The smaller of two numbers. */
  function Min(a: int, b: int): int
  {
    if a <= b then a else b
  }

  /** The batches, put back together, are the whole list in its order. */
  lemma {:induction false} BatchesCover<T>(s: seq<T>)
    ensures Flatten(Batches(s)) == s
    decreases |s|
  {
    if |s| > BatchSize {
      BatchesCover(s[BatchSize..]);
      assert ([s[..BatchSize]] + Batches(s[BatchSize..]))[1..] == Batches(s[BatchSize..]);
      assert s[..BatchSize] + s[BatchSize..] == s;
    } else if |s| > 0 {
      assert [s][1..] == [];
      assert s + [] == s;
    }
  }

  /** There are ⌈n / 100⌉ batches. */
  lemma {:induction false} BatchesCount<T>(s: seq<T>)
    ensures |Batches(s)| == NumBatches(|s|)
    decreases |s|
  {
    if |s| > BatchSize {
      BatchesCount(s[BatchSize..]);
      assert NumBatches(|s|) == NumBatches(|s| - BatchSize) + 1;
    }
  }

  /** Batch `k` is the slice `s[100k .. min(100k + 100, |s|)]`. */
  lemma {:induction false} BatchIsSlice<T>(s: seq<T>, k: nat)
    requires k < |Batches(s)|
    ensures k * BatchSize < |s|
    ensures Batches(s)[k] == s[k * BatchSize..Min(k * BatchSize + BatchSize, |s|)]
    decreases |s|
  {
    if |s| > BatchSize && k > 0 {
      var rest := s[BatchSize..];
      assert Batches(s)[k] == Batches(rest)[k - 1];
      BatchIsSlice(rest, k - 1);
      assert (k - 1) * BatchSize + BatchSize == k * BatchSize;
      assert rest[(k - 1) * BatchSize..Min((k - 1) * BatchSize + BatchSize, |rest|)]
          == s[k * BatchSize..Min(k * BatchSize + BatchSize, |s|)];
    }
  }

  /** Every batch holds between 1 and 100 candidates, and all but the last exactly 100. */
  lemma BatchSizes<T>(s: seq<T>, k: nat)
    requires k < |Batches(s)|
    ensures 1 <= |Batches(s)[k]| <= BatchSize
    ensures k + 1 < |Batches(s)| ==> |Batches(s)[k]| == BatchSize
  {
    BatchIsSlice(s, k);
    BatchesCount(s);
    if k + 1 < |Batches(s)| {
      BatchIsSlice(s, k + 1);
    }
  }

  /** 250 candidates make three batches of 100, 100 and 50. */
  lemma TwoHundredFifty<T>(s: seq<T>)
    requires |s| == 250
    ensures |Batches(s)| == 3
    ensures |Batches(s)[0]| == 100 && |Batches(s)[1]| == 100 && |Batches(s)[2]| == 50
  {
    BatchesCount(s);
    BatchIsSlice(s, 0);
    BatchIsSlice(s, 1);
    BatchIsSlice(s, 2);
  }

  /** One step of the loop: the batch at `i` followed by the batches from `i + 100`. */
  lemma BatchesStep<T>(s: seq<T>, i: nat)
    requires i < |s|
    ensures Batches(s[i..]) == [s[i..Min(i + BatchSize, |s|)]] + Batches(s[Min(i + BatchSize, |s|)..])
  {
    var t := s[i..];
    if |t| > BatchSize {
      assert t[..BatchSize] == s[i..i + BatchSize];
      assert t[BatchSize..] == s[i + BatchSize..];
    } else {
      assert Min(i + BatchSize, |s|) == |s|;
      assert s[i..|s|] == t;
      assert Batches(t) == [t];
      assert s[|s|..] == [];
      assert Batches(s[|s|..]) == [];
    }
  }

  /**
   * `Math.floor(Math.random() * (1000 - 500 + 1) + 500)` for a draw `u` of
   * `Math.random()`: an integer from 500 to 1000.
   */
  function DrawInterval(u: real): (interval: int)
    requires 0.0 <= u < 1.0
    ensures 500 <= interval <= 1000
  {
    (u * 501.0 + 500.0).Floor
  }

  /** Every interval from 500 to 1000 can be drawn. */
  lemma EveryIntervalCanBeDrawn(v: int)
    requires 500 <= v <= 1000
    ensures DrawInterval((v - 500) as real / 501.0) == v
  {
    var u := (v - 500) as real / 501.0;
    assert u * 501.0 + 500.0 == v as real;
  }

  /**
   * The wait before the next batch: `randomInterval - elapsed` when that is
   * positive, no wait otherwise; `elapsed` is how long the previous batch took.
   */
  function Delay(interval: int, elapsed: int): nat
  {
    var timeRemaining := interval - elapsed;
    if timeRemaining > 0 then timeRemaining else 0
  }

  /**
   * The throttle: from the start of one batch to the start of the next at
   * least the drawn interval passes, and no more than it when the batch
   * was quicker; a wait is never longer than the interval.
   */
  lemma DelayThrottles(interval: int, elapsed: nat)
    ensures elapsed + Delay(interval, elapsed) >= interval
    ensures Delay(interval, elapsed) > 0 ==> elapsed + Delay(interval, elapsed) == interval
    ensures Delay(interval, elapsed) <= if interval > 0 then interval else 0
  {
  }

  /**
   * The waits before the first `count` batches: none before the first, and
   * before batch `b` what batch `b - 1`, which took `durations[b - 1]`, left
   * of the interval `draws[b - 1]` drew.
   */
  function Waits(durations: seq<nat>, draws: seq<real>, count: nat): (waits: seq<nat>)
    requires count <= |durations| + 1 && count <= |draws| + 1
    requires forall b :: 0 <= b < |draws| ==> 0.0 <= draws[b] < 1.0
    ensures |waits| == count
    decreases count
  {
    if count == 0 then []
    else if count == 1 then [0]
    else Waits(durations, draws, count - 1) + [Delay(DrawInterval(draws[count - 2]), durations[count - 2])]
  }

  /**
   * No wait before the first batch; between the starts of two batches at
   * least 500 ms pass, and no wait is longer than 1000 ms.
   */
  lemma WaitsBounds(durations: seq<nat>, draws: seq<real>, count: nat)
    requires count <= |durations| + 1 && count <= |draws| + 1
    requires forall b :: 0 <= b < |draws| ==> 0.0 <= draws[b] < 1.0
    ensures count > 0 ==> Waits(durations, draws, count)[0] == 0
    ensures forall b :: 0 < b < count ==>
      durations[b - 1] + Waits(durations, draws, count)[b] >= 500 && Waits(durations, draws, count)[b] <= 1000
  {
    forall b | 0 < b < count
      ensures durations[b - 1] + Waits(durations, draws, count)[b] >= 500 && Waits(durations, draws, count)[b] <= 1000
    {
      WaitIsDelay(durations, draws, count, b);
      DelayThrottles(DrawInterval(draws[b - 1]), durations[b - 1]);
    }
    if count > 0 {
      WaitFirst(durations, draws, count);
    }
  }

  /** The first batch starts without a wait. */
  lemma {:induction false} WaitFirst(durations: seq<nat>, draws: seq<real>, count: nat)
    requires 0 < count <= |durations| + 1 && count <= |draws| + 1
    requires forall b :: 0 <= b < |draws| ==> 0.0 <= draws[b] < 1.0
    ensures Waits(durations, draws, count)[0] == 0
    decreases count
  {
    if count > 1 {
      WaitFirst(durations, draws, count - 1);
    }
  }

  /** One more batch adds one wait: what the previous batch left of its interval, or none before the first. */
  lemma WaitsStep(durations: seq<nat>, draws: seq<real>, count: nat)
    requires count < |durations| + 1 && count < |draws| + 1
    requires forall b :: 0 <= b < |draws| ==> 0.0 <= draws[b] < 1.0
    ensures Waits(durations, draws, count + 1) == Waits(durations, draws, count) +
      [if count == 0 then 0 else Delay(DrawInterval(draws[count - 1]), durations[count - 1])]
  {
  }

  /** The wait before batch `b > 0` is what the previous batch left of its interval. */
  lemma {:induction false} WaitIsDelay(durations: seq<nat>, draws: seq<real>, count: nat, b: nat)
    requires count <= |durations| + 1 && count <= |draws| + 1
    requires forall k :: 0 <= k < |draws| ==> 0.0 <= draws[k] < 1.0
    requires 0 < b < count
    ensures Waits(durations, draws, count)[b] == Delay(DrawInterval(draws[b - 1]), durations[b - 1])
    decreases count
  {
    if b < count - 1 {
      WaitIsDelay(durations, draws, count - 1, b);
    }
  }

  /** The span of the clock readings `Date.now() % 10000`. */
  const ClockModulus: nat := 10000

  /**
   * The wait as the source computes it, from the clock readings at the start
   * and end of the previous batch each reduced modulo 10000.
   */
  function DelayAsWritten(interval: int, startReading: nat, endReading: nat): nat
  {
    Delay(interval, endReading % ClockModulus - startReading % ClockModulus)
  }

  /** Without a 10-second boundary inside the batch, the source's wait is the intended one. */
  lemma AsWrittenAgreesWithoutWrap(interval: int, startReading: nat, endReading: nat)
    requires startReading <= endReading
    requires startReading / ClockModulus == endReading / ClockModulus
    ensures DelayAsWritten(interval, startReading, endReading) == Delay(interval, endReading - startReading)
  {
    var q := startReading / ClockModulus;
    assert startReading == q * ClockModulus + startReading % ClockModulus;
    assert endReading == q * ClockModulus + endReading % ClockModulus;
  }

  /**
   * A batch of 20 ms that crosses a 10-second boundary of the clock: the
   * readings 9990 and 10010 reduce to 9990 and 10, the elapsed time comes
   * out as -9980 ms, and a drawn interval of 500 ms turns into a wait of
   * 10480 ms instead of 480 ms, beyond the largest interval of 1000 ms.
   */
  lemma WrapInflatesDelay()
    ensures DelayAsWritten(500, 9990, 10010) == 10480
    ensures Delay(500, 10010 - 9990) == 480
    ensures DelayAsWritten(500, 9990, 10010) > 1000
  {
  }
}
