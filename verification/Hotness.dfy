// From the hotness of an object to the pool it belongs in (mio_obj_hotness_to_pool_idx), with the
// driver's integer widths: thresholds and hotness are 64-bit unsigned, indices and the interval
// between warm pools are 32-bit signed.
module Hotness {
  import opened Errors
  import opened Paging
  import opened Words

  const DEFAULT_COLD := 16
  const DEFAULT_HOT := 128

  // Conversion to int.
  function ToInt32(x: int): (r: int)
    ensures -TWO_31 <= r < TWO_31
    ensures -TWO_31 <= x < TWO_31 ==> r == x
  {
    var r := x % TWO_32;
    if r < TWO_31 then r else r - TWO_32
  }

  // The divisor of the warm branch.
  function WarmInterval(hot: nat, cold: nat, pools: nat): nat
    requires pools > 2 && cold <= hot
  {
    ToUint64(ToInt32((hot - cold) / (pools - 2)))
  }

  // The index, or none when the warm branch divides by zero.
  function PoolIdx(hotness: nat, hot: nat, cold: nat, pools: nat): (r: Option<int>)
    requires 0 < pools < TWO_31
  {
    if hotness > hot then Some(0)
    else if hotness < cold then Some(pools - 1)
    else if pools <= 2 then Some(pools - 1)
    else
      var w := WarmInterval(hot, cold, pools);
      if w == 0 then None
      else Some(WarmIdx(pools, Steps(hotness, cold, w)))
  }

  // How many whole intervals a hotness lies above the cold threshold.
  function Steps(hotness: nat, cold: nat, w: nat): nat
    requires w > 0 && cold <= hotness
  {
    (hotness - cold) / w
  }

  lemma StepsGrow(h1: nat, h2: nat, cold: nat, w: nat)
    requires w > 0 && cold <= h1 <= h2
    ensures Steps(h1, cold, w) <= Steps(h2, cold, w)
  {
    QuotientGrows(h1 - cold, h2 - cold, w);
  }

  // The warm index `steps` intervals above the cold threshold.
  function WarmIdx(pools: nat, steps: nat): int {
    ToInt32(ToUint64(pools - 1 - steps - 1))
  }

  lemma WarmIdxIs(pools: nat, steps: nat)
    requires 2 < pools < TWO_31
    ensures steps <= pools - 2 ==> WarmIdx(pools, steps) == pools - 2 - steps
    ensures steps == pools - 1 ==> WarmIdx(pools, steps) == -1
  {}

  predicate InRange(r: Option<int>, pools: nat) {
    r.Some? && 0 <= r.value < pools
  }

  // What the thresholds have to satisfy.
  predicate Fits(hot: nat, cold: nat, pools: nat) {
    pools > 2 && cold <= hot ==>
      WarmInterval(hot, cold, pools) != 0 && Steps(hot, cold, WarmInterval(hot, cold, pools)) <= pools - 2
  }

  // Every quotient up to the last one is met.
  lemma QuotientMet(d: nat, w: nat, q: nat)
    requires w > 0 && q <= d / w
    ensures q * w <= d && (q * w) / w == q
  {
    Quotient(q * w, q, 0, w);
    assert d == (d / w) * w + d % w;
    Distributes(d / w, q, w);
    assert (d / w - q) * w >= 0;
  }

  lemma FitsIsInRange(hot: nat, cold: nat, pools: nat, h: nat)
    requires 0 < pools < TWO_31 && Fits(hot, cold, pools)
    ensures InRange(PoolIdx(h, hot, cold, pools), pools)
  {
    hide WarmInterval, WarmIdx, Steps;
    if pools > 2 && cold <= h <= hot {
      var w := WarmInterval(hot, cold, pools);
      StepsGrow(h, hot, cold, w);
      WarmIdxIs(pools, Steps(h, cold, w));
    }
  }

  // The hotness one interval too far gets index -1.
  lemma OutOfRange(hot: nat, cold: nat, pools: nat) returns (h: nat)
    requires 0 < pools < TWO_31 && !Fits(hot, cold, pools)
    ensures h <= hot && !InRange(PoolIdx(h, hot, cold, pools), pools)
  {
    hide WarmInterval, WarmIdx;
    var w := WarmInterval(hot, cold, pools);
    h := cold;
    if w != 0 {
      QuotientMet(hot - cold, w, pools - 1);
      h := cold + (pools - 1) * w;
      WarmIdxIs(pools, pools - 1);
      SomeIdx(h, hot, cold, pools, w, pools - 1);
    }
  }

  lemma SomeIdx(h: nat, hot: nat, cold: nat, pools: nat, w: nat, steps: nat)
    requires 2 < pools < TWO_31 && cold <= h <= hot && w == WarmInterval(hot, cold, pools) && w != 0
    requires (h - cold) / w == steps
    ensures PoolIdx(h, hot, cold, pools) == Some(WarmIdx(pools, steps))
  {}

  // Where an object belongs: hot ones in the first pool, cold ones in the last, and warm ones as many
  // pools above the one before the last as there are intervals between the cold threshold and their
  // hotness. An interval is the range of warm hotness over the warm pools, truncated to an int and
  // widened to 64 bits.
  ghost predicate Belongs(h: nat, hot: nat, cold: nat, pools: nat, p: int) {
    if h > hot then p == 0
    else if h < cold || pools <= 2 then p == pools - 1
    else
      var q := ((hot - cold) / (pools - 2)) % TWO_32;
      var w := if q < TWO_31 then q else q + TWO_64 - TWO_32;
      w > 0 && p == pools - 2 - (h - cold) / w
  }

  lemma IntervalWords(hot: nat, cold: nat, pools: nat)
    requires pools > 2 && cold <= hot
    ensures var q := ((hot - cold) / (pools - 2)) % TWO_32;
            WarmInterval(hot, cold, pools) == if q < TWO_31 then q else q + TWO_64 - TWO_32
  {
    QuotientGrows(0, hot - cold, pools - 2);
    IntervalWord((hot - cold) / (pools - 2));
  }

  lemma IntervalWord(d: nat)
    ensures ToUint64(ToInt32(d)) == if d % TWO_32 < TWO_31 then d % TWO_32 else d % TWO_32 + TWO_64 - TWO_32
  {}

  lemma PoolIdxBelongs(h: nat, hot: nat, cold: nat, pools: nat, p: int)
    requires 0 < pools < TWO_31 && Fits(hot, cold, pools)
    ensures PoolIdx(h, hot, cold, pools) == Some(p) <==> Belongs(h, hot, cold, pools, p)
    ensures PoolIdx(h, hot, cold, pools).Some?
  {
    hide WarmInterval, WarmIdx;
    if pools > 2 && cold <= h <= hot {
      var w := WarmInterval(hot, cold, pools);
      IntervalWords(hot, cold, pools);
      StepsGrow(h, hot, cold, w);
      WarmIdxIs(pools, Steps(h, cold, w));
    }
  }

  // The index is in range for every hotness exactly when the thresholds fit.
  lemma InRangeExactlyWhen(hot: nat, cold: nat, pools: nat)
    requires 0 < pools < TWO_31 && hot < TWO_64
    ensures Fits(hot, cold, pools) <==> forall h: nat :: h < TWO_64 ==> InRange(PoolIdx(h, hot, cold, pools), pools)
  {
    hide Fits, PoolIdx, InRange;
    if Fits(hot, cold, pools) {
      forall h: nat | h < TWO_64 ensures InRange(PoolIdx(h, hot, cold, pools), pools) {
        FitsIsInRange(hot, cold, pools, h);
      }
    } else {
      var h := OutOfRange(hot, cold, pools);
    }
  }

  // Without truncation of the interval, a remainder below the quotient is what it takes.
  lemma FitsExactlyWhen(hot: nat, cold: nat, pools: nat)
    requires 2 < pools < TWO_31 && cold <= hot && (hot - cold) / (pools - 2) < TWO_31
    ensures var d, m := hot - cold, pools - 2; Fits(hot, cold, pools) <==> d % m < d / m
  {
    hide WarmInterval, Steps, Fits;
    var w := WarmInterval(hot, cold, pools);
    IntervalIs(hot, cold, pools);
    FitsBySteps(hot, cold, pools, w);
    StepsFit(hot, cold, pools - 2, w);
  }

  lemma FitsBySteps(hot: nat, cold: nat, pools: nat, w: nat)
    requires 2 < pools && cold <= hot && w == WarmInterval(hot, cold, pools)
    ensures Fits(hot, cold, pools) <==> w != 0 && Steps(hot, cold, w) <= pools - 2
  {}

  lemma StepsFit(hot: nat, cold: nat, m: nat, w: nat)
    requires cold <= hot && m > 0 && w == (hot - cold) / m
    ensures w != 0 && Steps(hot, cold, w) <= m <==> (hot - cold) % m < w
  {
    var d := hot - cold;
    assert d == w * m + d % m;
    if w > 0 {
      StepsIs(d, m, w, d % m);
    }
  }

  lemma IntervalIs(hot: nat, cold: nat, pools: nat)
    requires 2 < pools < TWO_31 && cold <= hot && (hot - cold) / (pools - 2) < TWO_31
    ensures WarmInterval(hot, cold, pools) == (hot - cold) / (pools - 2)
  {
    QuotientGrows(0, hot - cold, pools - 2);
  }

  lemma StepsIs(d: nat, m: nat, w: nat, r: nat)
    requires w > 0 && d == w * m + r
    ensures d / w <= m <==> r < w
  {
    if r < w {
      Quotient(d, m, r, w);
    } else {
      Distributes(m, 1, w);
      QuotientGrows((m + 1) * w, d, w);
      Quotient((m + 1) * w, m + 1, 0, w);
    }
  }

  // The default thresholds leave the range with 15 pools, and with no smaller number.
  lemma DefaultsFailAtFifteen()
    ensures PoolIdx(128, DEFAULT_HOT, DEFAULT_COLD, 15) == Some(-1)
    ensures forall n :: 0 < n < 15 ==> Fits(DEFAULT_HOT, DEFAULT_COLD, n)
  {
    assert (128 - 16) / 13 == 8;
    WarmIdxIs(15, 14);
    forall n | 2 < n < 15 ensures Fits(DEFAULT_HOT, DEFAULT_COLD, n) {
      FitsExactlyWhen(DEFAULT_HOT, DEFAULT_COLD, n);
    }
  }

  // A hotter object never belongs in a colder pool.
  lemma HotterIsFaster(hot: nat, cold: nat, pools: nat, h1: nat, h2: nat)
    requires 0 < pools < TWO_31 && hot < TWO_64 && Fits(hot, cold, pools) && h1 <= h2 < TWO_64
    ensures InRange(PoolIdx(h1, hot, cold, pools), pools) && InRange(PoolIdx(h2, hot, cold, pools), pools)
    ensures PoolIdx(h2, hot, cold, pools).value <= PoolIdx(h1, hot, cold, pools).value
  {
    hide WarmInterval, WarmIdx, Steps;
    FitsIsInRange(hot, cold, pools, h1);
    FitsIsInRange(hot, cold, pools, h2);
    if pools > 2 && cold <= h1 && h2 <= hot {
      var w := WarmInterval(hot, cold, pools);
      StepsGrow(h1, h2, cold, w);
      StepsGrow(h2, hot, cold, w);
      WarmIdxIs(pools, Steps(h1, cold, w));
      WarmIdxIs(pools, Steps(h2, cold, w));
    }
  }
}
