/** Timing a request in the streaming synthesiser's demo: elapsed milliseconds in unsigned 64-bit
    arithmetic, two ways, and the running statistics over all start events. */
module StartStatistics {

  const TWO64 := 0x1_0000_0000_0000_0000
  const MILLION := 1_000_000

  function U64(x: int): (r: int)
    ensures 0 <= r < TWO64 && (0 <= x < TWO64 ==> r == x)
  {
    x % TWO64
  }

  // ----- Elapsed time

  /** `struct timeval`: the seconds, times a million, fit a signed 64-bit integer. */
  datatype TimeVal = TimeVal(sec: int, usec: int) {
    predicate Valid() {
      && 0 <= usec < MILLION
      && -0x8000_0000_0000_0000 <= sec * MILLION && sec * MILLION + MILLION <= 0x8000_0000_0000_0000
    }

    function Micros(): int { sec * MILLION + usec }
  }

  /** The start event's computation: two unsigned differences, the second of which may have wrapped
      around, and a branch on the first. */
  function Branchy(start: TimeVal, end: TimeVal): nat {
    var seconds := U64(end.sec - start.sec);
    var micros := U64(end.usec - start.usec);
    if seconds > 0 then U64(U64(seconds * MILLION) + micros) / 1000 else micros / 1000
  }

  /** The completion event's computation: one unsigned difference of microseconds. */
  function Flat(start: TimeVal, end: TimeVal): nat {
    U64(U64(end.Micros()) - U64(start.Micros())) / 1000
  }

  lemma U64Shift(x: int, k: int)
    ensures U64(x + k * TWO64) == U64(x)
  {
  }

  lemma U64Multiple(x: int, y: int)
    ensures U64(U64(x) * MILLION + y) == U64(x * MILLION + y)
  {
    var k := x / TWO64;
    assert x == k * TWO64 + U64(x);
    assert U64(x) * MILLION + y == x * MILLION + y + (-k * MILLION) * TWO64;
    U64Shift(x * MILLION + y, -k * MILLION);
  }

  lemma U64Left(x: int, y: int)
    ensures U64(U64(x) + y) == U64(x + y)
  {
    assert U64(x) + y == x + y + (-(x / TWO64)) * TWO64;
    U64Shift(x + y, -(x / TWO64));
  }

  lemma U64Minus(x: int, y: int)
    ensures U64(U64(x) - U64(y)) == U64(x - y)
  {
    U64Left(x, -U64(y));
    assert x - U64(y) == x - y + (y / TWO64) * TWO64;
    U64Shift(x - y, y / TWO64);
  }

  lemma U64Seconds(ds: int, du: int)
    ensures U64(U64(U64(ds) * MILLION) + U64(du)) == U64(ds * MILLION + du)
  {
    U64Left(U64(ds) * MILLION, U64(du));
    U64Left(du, U64(ds) * MILLION);
    U64Multiple(ds, du);
  }

  lemma SecondsZero(ds: int)
    requires -TWO64 < ds < TWO64
    ensures U64(ds) == 0 <==> ds == 0
  {
  }

  lemma BranchyIs(start: TimeVal, end: TimeVal)
    requires start.Valid() && end.Valid()
    ensures Branchy(start, end) == U64((end.sec - start.sec) * MILLION + (end.usec - start.usec)) / 1000
  {
    SecondsZero(end.sec - start.sec);
    U64Seconds(end.sec - start.sec, end.usec - start.usec);
  }

  lemma FlatIs(start: TimeVal, end: TimeVal)
    ensures Flat(start, end) == U64(end.Micros() - start.Micros()) / 1000
  {
    U64Minus(end.Micros(), start.Micros());
  }

  /** Both are the elapsed microseconds modulo 2^64, over 1000: they agree on all valid times, in either
      order. */
  lemma FormulasAgree(start: TimeVal, end: TimeVal)
    requires start.Valid() && end.Valid()
    ensures Branchy(start, end) == Flat(start, end) == U64(end.Micros() - start.Micros()) / 1000
    ensures Branchy(start, end)
         == ((end.sec - start.sec) * 1_000_000 + (end.usec - start.usec)) % 0x1_0000_0000_0000_0000 / 1000
  {
    BranchyIs(start, end);
    FlatIs(start, end);
    assert end.Micros() - start.Micros() == (end.sec - start.sec) * MILLION + (end.usec - start.usec);
  }

  /** They are the elapsed whole milliseconds if and only if the end is not before the start. */
  lemma ElapsedIffInOrder(start: TimeVal, end: TimeVal)
    requires start.Valid() && end.Valid()
    ensures Flat(start, end) == (end.Micros() - start.Micros()) / 1000 <==> start.Micros() <= end.Micros()
    ensures end.Micros() - start.Micros() == (end.sec - start.sec) * 1_000_000 + (end.usec - start.usec)
  {
    FormulasAgree(start, end);
  }

  // ----- Running statistics

  /** Unsigned 64-bit addition of values that fit. */
  function Add64(x: nat, y: nat): nat {
    if x + y < TWO64 then x + y else x + y - TWO64
  }

  function Sum(xs: seq<nat>): nat {
    if xs == [] then 0 else Sum(xs[..|xs| - 1]) + xs[|xs| - 1]
  }

  /** The sum as an unsigned 64-bit field accumulates it. */
  function Sum64(xs: seq<nat>): nat {
    if xs == [] then 0 else Add64(Sum64(xs[..|xs| - 1]), xs[|xs| - 1])
  }

  /** An unsigned 64-bit counter of the samples in (lo, hi]. */
  function Count64(xs: seq<nat>, lo: int, hi: int): nat {
    if xs == [] then 0
    else Add64(Count64(xs[..|xs| - 1], lo, hi), if lo < xs[|xs| - 1] <= hi then 1 else 0)
  }

  /** The minimum with zero standing for "none yet". */
  function Sentinel(xs: seq<nat>): nat {
    if xs == [] then 0
    else
      var before, x := Sentinel(xs[..|xs| - 1]), xs[|xs| - 1];
      if before == 0 || x < before then x else before
  }

  function Maximum(xs: seq<nat>): nat {
    if xs == [] then 0
    else
      var before, x := Maximum(xs[..|xs| - 1]), xs[|xs| - 1];
      if x > before then x else before
  }

  class Stats {
    var started: nat
    var total: nat
    var average: nat
    var longest: nat
    var shortest: nat
    var upTo50: nat
    var upTo100: nat
    var upTo200: nat
    var upTo500: nat
    var upTo1000: nat
    var over1000: nat
    ghost var samples: seq<nat>

    /** The fields describe the samples seen so far. */
    ghost predicate Valid()
      reads this
    {
      && (forall i :: 0 <= i < |samples| ==> samples[i] < TWO64)
      && Totals(samples) && Averaged() && Extremes(samples) && Histogram(samples)
    }

    ghost predicate Totals(xs: seq<nat>)
      reads this`started, this`total
    {
      started == Count64(xs, -1, TWO64) && total == Sum64(xs)
    }

    ghost predicate Averaged()
      reads this`started, this`total, this`average
    {
      started > 0 ==> average == total / started
    }

    ghost predicate Extremes(xs: seq<nat>)
      reads this`longest, this`shortest
    {
      longest == Maximum(xs) && shortest == Sentinel(xs)
    }

    ghost predicate Histogram(xs: seq<nat>)
      reads this`upTo50, this`upTo100, this`upTo200, this`upTo500, this`upTo1000, this`over1000
    {
      && upTo50 == Count64(xs, -1, 50) && upTo100 == Count64(xs, 50, 100)
      && upTo200 == Count64(xs, 100, 200) && upTo500 == Count64(xs, 200, 500)
      && upTo1000 == Count64(xs, 500, 1000) && over1000 == Count64(xs, 1000, TWO64)
    }

    constructor ()
      ensures Valid() && samples == []
    {
      started, total, average, longest, shortest := 0, 0, 0, 0, 0;
      upTo50, upTo100, upTo200, upTo500, upTo1000, over1000 := 0, 0, 0, 0, 0, 0;
      samples := [];
    }

    /** A start event: its elapsed time joins the samples, and every field follows. */
    method OnStarted(start: TimeVal, now: TimeVal)
      requires Valid()
      modifies this
      ensures Valid() && samples == old(samples) + [Branchy(start, now)]
    {
      var value := Branchy(start, now);
      Record(value, samples);
      Stretch(value, samples);
      Count(value, samples);
      samples := samples + [value];
    }

    /** The count, the total and the average. */
    method Record(value: nat, ghost xs: seq<nat>)
      requires Totals(xs) && value < TWO64
      modifies this`started, this`total, this`average
      ensures Totals(xs + [value]) && Averaged()
    {
      assert (xs + [value])[..|xs|] == xs;
      started := Add64(started, 1);
      total := Add64(total, value);
      if started > 0 {
        average := total / started;
      }
    }

    /** The maximum and the minimum. */
    method Stretch(value: nat, ghost xs: seq<nat>)
      requires Extremes(xs)
      modifies this`longest, this`shortest
      ensures Extremes(xs + [value])
    {
      assert (xs + [value])[..|xs|] == xs;
      if value > longest { longest := value; }
      if shortest == 0 {
        shortest := value;
      } else if value < shortest {
        shortest := value;
      }
    }

    /** One bucket of the histogram goes up by one. */
    method Count(value: nat, ghost xs: seq<nat>)
      requires Histogram(xs) && value < TWO64
      modifies this`upTo50, this`upTo100, this`upTo200, this`upTo500, this`upTo1000, this`over1000
      ensures Histogram(xs + [value])
    {
      assert (xs + [value])[..|xs|] == xs;
      CountsFit(xs);
      if value <= 50 {
        upTo50 := Add64(upTo50, 1);
      } else if value <= 100 {
        upTo100 := Add64(upTo100, 1);
      } else if value <= 200 {
        upTo200 := Add64(upTo200, 1);
      } else if value <= 500 {
        upTo500 := Add64(upTo500, 1);
      } else if value <= 1000 {
        upTo1000 := Add64(upTo1000, 1);
      } else {
        over1000 := Add64(over1000, 1);
      }
    }
  }

  lemma CountsFit(xs: seq<nat>)
    ensures forall lo, hi :: Count64(xs, lo, hi) < TWO64
  {
    forall lo, hi ensures Count64(xs, lo, hi) < TWO64 {
      CountFits(xs, lo, hi);
    }
  }

  lemma {:induction false} CountFits(xs: seq<nat>, lo: int, hi: int)
    ensures Count64(xs, lo, hi) < TWO64 && Count64(xs, lo, hi) <= |xs|
  {
    if xs == [] {
    } else {
      CountFits(xs[..|xs| - 1], lo, hi);
    }
  }

  // ----- What the statistics mean

  /** The accumulated sum has lost a multiple of 2^64. */
  lemma {:induction false} SumWraps(xs: seq<nat>) returns (k: nat)
    requires forall i :: 0 <= i < |xs| ==> xs[i] < TWO64
    ensures Sum(xs) == Sum64(xs) + k * TWO64 && Sum64(xs) < TWO64
  {
    if xs == [] {
      k := 0;
    } else {
      var n := |xs| - 1;
      var before := SumWraps(xs[..n]);
      k := if Sum64(xs[..n]) + xs[n] < TWO64 then before else before + 1;
    }
  }

  lemma MoreTimes(p: nat, q: nat, n: nat)
    requires p <= q
    ensures p * n <= q * n
  {
  }

  lemma QuotientDiffers(a: nat, b: nat, n: nat)
    requires 0 < n && a >= b + n
    ensures a / n > b / n
  {
    var p, q := a / n, b / n;
    assert p * n <= a < p * n + n && q * n <= b;
    assert q * n < p * n;
    if p <= q { MoreTimes(p, q, n); }
  }

  /** The stored average is the floor of the true mean if and only if the total fits 64 bits. */
  lemma AverageIffFits(xs: seq<nat>)
    requires 0 < |xs| < TWO64 && forall i :: 0 <= i < |xs| ==> xs[i] < TWO64
    ensures Sum64(xs) / |xs| == Sum(xs) / |xs| <==> Sum(xs) < 0x1_0000_0000_0000_0000
  {
    var k := SumWraps(xs);
    if k > 0 {
      QuotientDiffers(Sum(xs), Sum64(xs), |xs|);
    }
  }

  /** Every sample is counted once, and in exactly one bucket. */
  lemma {:induction false} BucketsPartition(xs: seq<nat>)
    requires |xs| < TWO64 && forall i :: 0 <= i < |xs| ==> xs[i] < TWO64
    ensures Count64(xs, -1, TWO64) == |xs|
    ensures Count64(xs, -1, 50) + Count64(xs, 50, 100) + Count64(xs, 100, 200) + Count64(xs, 200, 500)
            + Count64(xs, 500, 1000) + Count64(xs, 1000, TWO64) == |xs|
  {
    if xs == [] {
    } else {
      var before, x := xs[..|xs| - 1], xs[|xs| - 1];
      BucketsPartition(before);
      CountMore(xs, -1, 50);
      CountMore(xs, 50, 100);
      CountMore(xs, 100, 200);
      CountMore(xs, 200, 500);
      CountMore(xs, 500, 1000);
      CountMore(xs, 1000, TWO64);
    }
  }

  /** The samples in (lo, hi], by their numbers. */
  ghost function Among(xs: seq<nat>, lo: int, hi: int): set<nat> {
    set i: nat | i < |xs| && lo < xs[i] <= hi
  }

  /** A counter is the number of samples in its range, while the count fits 64 bits. */
  lemma {:induction false} CountIsSize(xs: seq<nat>, lo: int, hi: int)
    requires |xs| < TWO64
    ensures Count64(xs, lo, hi) == |Among(xs, lo, hi)|
  {
    if xs == [] {
      assert Among(xs, lo, hi) == {};
    } else {
      var n := |xs| - 1;
      var before := Among(xs[..n], lo, hi);
      CountIsSize(xs[..n], lo, hi);
      CountMore(xs, lo, hi);
      assert n !in before;
      assert Among(xs, lo, hi) == if lo < xs[n] <= hi then before + {n} else before;
    }
  }

  lemma CountMore(xs: seq<nat>, lo: int, hi: int)
    requires 0 < |xs| < TWO64
    ensures Count64(xs, lo, hi) == Count64(xs[..|xs| - 1], lo, hi) + if lo < xs[|xs| - 1] <= hi then 1 else 0
  {
    CountFits(xs[..|xs| - 1], lo, hi);
  }

  ghost predicate IsMaximum(xs: seq<nat>, m: nat) {
    m in xs && forall i :: 0 <= i < |xs| ==> xs[i] <= m
  }

  ghost predicate IsMinimum(xs: seq<nat>, m: nat) {
    m in xs && forall i :: 0 <= i < |xs| ==> m <= xs[i]
  }

  lemma {:induction false} MaximumIsMaximum(xs: seq<nat>)
    requires xs != []
    ensures IsMaximum(xs, Maximum(xs))
  {
    var n := |xs| - 1;
    var before := xs[..n];
    if n == 0 {
      assert Maximum(before) == 0 && xs[0] in xs;
    } else {
      MaximumIsMaximum(before);
      forall i | 0 <= i < |xs| ensures xs[i] <= Maximum(xs) {
        if i < n { assert before[i] == xs[i]; }
      }
      assert xs == before + [xs[n]];
    }
  }

  /** The stored minimum is the true one if and only if no sample is zero or the last one is: a zero is
      taken for "none yet" and forgotten at the next sample. */
  lemma SentinelIsMinimumIff(xs: seq<nat>)
    requires xs != []
    ensures IsMinimum(xs, Sentinel(xs)) <==> 0 !in xs || xs[|xs| - 1] == 0
  {
    var n := |xs| - 1;
    assert xs == xs[..n] + [xs[n]];
    SentinelMeaning(xs);
    if 0 in xs {
      var z :| 0 <= z < |xs| && xs[z] == 0;
      if IsMinimum(xs, Sentinel(xs)) {
        assert Sentinel(xs) <= xs[z];
      }
    }
  }

  /** Zero is stored exactly after a zero sample; without zeros the minimum is stored. */
  lemma {:induction false} SentinelMeaning(xs: seq<nat>)
    requires xs != []
    ensures Sentinel(xs) == 0 <==> xs[|xs| - 1] == 0
    ensures 0 !in xs ==> IsMinimum(xs, Sentinel(xs))
  {
    var n := |xs| - 1;
    assert xs == xs[..n] + [xs[n]];
    if n == 0 {
    } else {
      SentinelMeaning(xs[..n]);
    }
  }

  /** Each bucket holds the number of samples in its range. */
  lemma BucketsMean(s: Stats)
    requires s.Valid() && |s.samples| < TWO64
    ensures s.upTo50 == |set i: nat | i < |s.samples| && s.samples[i] <= 50|
    ensures s.upTo100 == |set i: nat | i < |s.samples| && 50 < s.samples[i] <= 100|
    ensures s.upTo200 == |set i: nat | i < |s.samples| && 100 < s.samples[i] <= 200|
    ensures s.upTo500 == |set i: nat | i < |s.samples| && 200 < s.samples[i] <= 500|
    ensures s.upTo1000 == |set i: nat | i < |s.samples| && 500 < s.samples[i] <= 1000|
    ensures s.over1000 == |set i: nat | i < |s.samples| && 1000 < s.samples[i]|
  {
    var xs := s.samples;
    CountIsSize(xs, -1, 50);
    CountIsSize(xs, 50, 100);
    CountIsSize(xs, 100, 200);
    CountIsSize(xs, 200, 500);
    CountIsSize(xs, 500, 1000);
    CountIsSize(xs, 1000, TWO64);
    assert Among(xs, -1, 50) == set i: nat | i < |xs| && xs[i] <= 50;
    assert Among(xs, 50, 100) == set i: nat | i < |xs| && 50 < xs[i] <= 100;
    assert Among(xs, 100, 200) == set i: nat | i < |xs| && 100 < xs[i] <= 200;
    assert Among(xs, 200, 500) == set i: nat | i < |xs| && 200 < xs[i] <= 500;
    assert Among(xs, 500, 1000) == set i: nat | i < |xs| && 500 < xs[i] <= 1000;
    assert Among(xs, 1000, TWO64) == set i: nat | i < |xs| && 1000 < xs[i];
  }

  /** As long as the count fits 64 bits the fields are the plain statistics: the count, the maximum, and
      buckets that add up to the count; the average is the floor of the mean exactly if the total fits 64
      bits too, and the minimum is the true one exactly if no sample is zero or the last one is. */
  lemma FieldsMean(s: Stats)
    requires s.Valid() && 0 < |s.samples| < TWO64
    ensures s.started == |s.samples|
    ensures s.average == Sum(s.samples) / |s.samples| <==> Sum(s.samples) < TWO64
    ensures IsMaximum(s.samples, s.longest)
    ensures IsMinimum(s.samples, s.shortest) <==> 0 !in s.samples || s.samples[|s.samples| - 1] == 0
    ensures s.upTo50 + s.upTo100 + s.upTo200 + s.upTo500 + s.upTo1000 + s.over1000 == s.started
    ensures s.upTo50 == |set i: nat | i < |s.samples| && s.samples[i] <= 50|
    ensures s.upTo100 == |set i: nat | i < |s.samples| && 50 < s.samples[i] <= 100|
    ensures s.upTo200 == |set i: nat | i < |s.samples| && 100 < s.samples[i] <= 200|
    ensures s.upTo500 == |set i: nat | i < |s.samples| && 200 < s.samples[i] <= 500|
    ensures s.upTo1000 == |set i: nat | i < |s.samples| && 500 < s.samples[i] <= 1000|
    ensures s.over1000 == |set i: nat | i < |s.samples| && 1000 < s.samples[i]|
  {
    BucketsMean(s);
    MaximumIsMaximum(s.samples);
    SentinelIsMinimumIff(s.samples);
    BucketsPartition(s.samples);
    AverageIffFits(s.samples);
  }
}
