// The table of optimised block sizes of a pool (mio_motr_pool_get): multiples of the parity-group
// size below a maximum, spaced so that they fit the table.
module BlockSizes {
  import opened Paging

  const MAX_NR_OPT_BLKSIZES := 16

  // x rounded up to a multiple of g.
  function RoundUp(x: nat, g: nat): nat
    requires g > 0
  {
    ((x + g - 1) / g) * g
  }

  // The least multiple of `g` at or above `x`.
  ghost predicate LeastMultiple(m: nat, g: nat, x: nat) {
    g > 0 && m % g == 0 && x <= m < x + g
  }

  lemma RoundUpIsLeast(x: nat, g: nat)
    requires g > 0
    ensures LeastMultiple(RoundUp(x, g), g, x)
  {
    var q, r := (x + g - 1) / g, (x + g - 1) % g;
    assert x + g - 1 == q * g + r;
    Quotient(q * g, q, 0, g);
  }

  lemma RoundUpIs(x: nat, g: nat, k: nat)
    requires g > 0 && k * g < x + g && x <= k * g
    ensures RoundUp(x, g) == k * g
  {
    Quotient(x + g - 1, k, x + g - 1 - k * g, g);
  }

  function GroupSize(unit: nat, n: nat): nat {
    unit * n
  }

  function DoubleWidth(unit: nat, p: nat, n: nat): nat {
    unit * 2 * p * n
  }

  // Twice the width of the pool in data units, rounded up to whole groups.
  function MaxBlkSize(unit: nat, n: nat, k: nat, p: nat): nat
    requires unit > 0 && n > 0
  {
    AtLeast(unit, n);
    RoundUp(DoubleWidth(unit, p, n) / (n + 2 * k), GroupSize(unit, n))
  }

  lemma Swap(a: nat, b: nat, c: nat)
    ensures (a * b) * c == (a * c) * b
  {}

  lemma DataUnits(unit: nat, p: nat, n: nat)
    ensures unit * 2 * p * n == (2 * (unit * n)) * p
  {}

  // At least two groups.
  lemma MaxBlkSizeIs(unit: nat, n: nat, k: nat, p: nat) returns (c: nat)
    requires unit > 0 && n > 0 && p >= n + 2 * k
    ensures 2 <= c && GroupSize(unit, n) > 0 && MaxBlkSize(unit, n, k, p) == c * GroupSize(unit, n)
  {
    AtLeast(unit, n);
    var g, w := unit * n, n + 2 * k;
    DataUnits(unit, p, n);
    Grows(w, p, 2 * g);
    c := WholeGroups(unit * 2 * p * n, w, g);
  }

  lemma WholeGroups(total: nat, w: nat, g: nat) returns (c: nat)
    requires w > 0 && g > 0 && (2 * g) * w <= total
    ensures 2 <= c && RoundUp(total / w, g) == c * g
  {
    QuotientAtLeast(total, w, 2 * g);
    c := (total / w + g - 1) / g;
    QuotientAtLeast(total / w + g - 1, g, 2);
  }

  lemma QuotientAtLeast(x: nat, w: nat, q: nat)
    requires w > 0 && q * w <= x
    ensures q <= x / w
  {
    assert x == (x / w) * w + x % w;
    Distributes(q, x / w, w);
    if x / w < q {
      AtLeast(q - x / w, w);
    }
  }

  // The step between entries is a whole number of groups, and `nr` steps reach the maximum.
  lemma StepIs(c: nat, g: nat, nr: nat) returns (j: nat)
    requires 16 <= g && 0 < nr <= c && nr <= MAX_NR_OPT_BLKSIZES
    ensures 0 < j == c / nr + (if c % nr == 0 then 0 else 1)
    ensures RoundUp(c * g / nr, g) == j * g && c <= j * nr
  {
    var a, b := c / nr, c % nr;
    assert c == a * nr + b;
    QuotientAtLeast(c, nr, 1);
    if b == 0 {
      j := a;
      WholeSteps(a, nr, g);
    } else {
      j := a + 1;
      PartSteps(a, nr, b, g);
      Distributes(a, 1, nr);
    }
  }

  lemma WholeSteps(a: nat, nr: nat, g: nat)
    requires 0 < nr && 0 < g
    ensures RoundUp((a * nr) * g / nr, g) == a * g
  {
    SplitProduct(a, nr, 0, g);
    Quotient((a * nr) * g, a * g, 0, nr);
    RoundUpIs(a * g, g, a);
  }

  lemma PartSteps(a: nat, nr: nat, b: nat, g: nat)
    requires 0 < b < nr <= 16 <= g
    ensures RoundUp((a * nr + b) * g / nr, g) == (a + 1) * g
  {
    var s, r := b * g / nr, (b * g) % nr;
    SplitProduct(a, nr, b, g);
    PartQuotient(a * g, b * g, nr);
    Partial(b, g, nr);
    Distributes(a, 1, g);
    RoundUpIs(a * g + s, g, a + 1);
  }

  lemma PartQuotient(x: nat, y: nat, nr: nat)
    requires nr > 0
    ensures (x * nr + y) / nr == x + y / nr
  {
    Distributes(x, y / nr, nr);
    assert y == (y / nr) * nr + y % nr;
    Quotient(x * nr + y, x + y / nr, y % nr, nr);
  }

  lemma SplitProduct(a: nat, nr: nat, b: nat, g: nat)
    ensures (a * nr + b) * g == (a * g) * nr + b * g
  {}

  // Part of a group, but not nothing.
  lemma Partial(b: nat, g: nat, nr: nat)
    requires 0 < b < nr <= 16 <= g
    ensures 0 < b * g / nr < g
  {}

  function NrOpt(max: nat, g: nat): nat
    requires g > 0
  {
    if max / g > MAX_NR_OPT_BLKSIZES then MAX_NR_OPT_BLKSIZES else max / g
  }

  lemma GroupIsLarge(unit: nat, n: nat)
    requires unit >= 4096 && n >= 1
    ensures GroupSize(unit, n) >= 4096
  {}

  // The step is a whole number of groups, smaller than the maximum, and at most 16 steps reach it.
  lemma Spacing(c: nat, g: nat) returns (j: nat)
    requires 2 <= c && 16 <= g
    ensures var max := c * g;
            && 2 <= NrOpt(max, g) <= MAX_NR_OPT_BLKSIZES
            && 0 < j && RoundUp(max / NrOpt(max, g), g) == j * g
            && 0 < j * g < max <= NrOpt(max, g) * (j * g)
  {
    Quotient(c * g, c, 0, g);
    var nr := NrOpt(c * g, g);
    j := StepIs(c, g, nr);
    AtLeast(j, g);
    StepBelow(c, j, nr);
    Distributes(c, j, g);
    AtLeast(c - j, g);
    Grows(c, j * nr, g);
    Swap(j, nr, g);
  }

  lemma StepBelow(c: nat, j: nat, nr: nat)
    requires 2 <= nr <= c && j == c / nr + if c % nr == 0 then 0 else 1
    ensures j < c
  {}

  lemma BelowLimit(i: nat, limit: nat, incr: nat, max: nat)
    requires (i + 1) * incr < max <= limit * incr
    ensures i + 1 < limit
  {}

  // The loop that fills the table.
  method Fill(sizes: array<nat>, incr: nat, max: nat, limit: nat) returns (i: nat)
    requires 0 < incr && max <= limit * incr && limit <= sizes.Length && 0 < limit
    modifies sizes
    ensures i < limit && max <= (i + 1) * incr
    ensures forall m :: 0 <= m < i ==> sizes[m] == (m + 1) * incr && sizes[m] < max
  {
    i := 0;
    var blksize := incr;
    while blksize < max
      invariant i < limit && blksize == (i + 1) * incr
      invariant forall m :: 0 <= m < i ==> sizes[m] == (m + 1) * incr && sizes[m] < max
      decreases limit - i
    {
      BelowLimit(i, limit, incr, max);
      Distributes(i + 1, 1, incr);
      sizes[i] := blksize;
      i := i + 1;
      blksize := blksize + incr;
    }
  }

  // Twice the width of the pool in data units, in whole groups.
  ghost predicate IsMaximum(max: nat, unit: nat, n: nat, k: nat, p: nat) {
    n > 0 && LeastMultiple(max, unit * n, unit * 2 * p * n / (n + 2 * k))
  }

  // As many steps as there are groups in the maximum, or 16, reach it; a step is whole groups.
  ghost predicate IsStep(step: nat, max: nat, g: nat) {
    g > 0 && max / g > 0 && LeastMultiple(step, g, max / if max / g > 16 then 16 else max / g)
  }

  // The table: all the multiples of the step below the maximum, at most 15.
  method OptBlkSizes(unit: nat, n: nat, k: nat, p: nat) returns (sizes: array<nat>, nr: nat, ghost max: nat)
    requires unit >= 4096 && n >= 1 && p >= n + 2 * k
    ensures fresh(sizes) && sizes.Length == MAX_NR_OPT_BLKSIZES && 0 < nr < MAX_NR_OPT_BLKSIZES
    ensures IsMaximum(max, unit, n, k, p) && IsStep(sizes[0], max, GroupSize(unit, n))
    ensures forall i :: 0 <= i < nr ==> sizes[i] == (i + 1) * sizes[0] && 0 < sizes[i] < max
    ensures forall i, j :: 0 <= i < j < nr ==> sizes[i] < sizes[j]
    ensures max <= (nr + 1) * sizes[0]
  {
    hide RoundUp, GroupSize, NrOpt, MaxBlkSize, IsStep, IsMaximum;
    GroupIsLarge(unit, n);
    ghost var c := MaxBlkSizeIs(unit, n, k, p);
    var grpSize, maxBlkSize := GroupSize(unit, n), MaxBlkSize(unit, n, k, p);
    max := maxBlkSize;
    MaxBlkSizeIsLeast(unit, n, k, p);
    ghost var j := Spacing(c, grpSize);
    sizes := new nat[MAX_NR_OPT_BLKSIZES];
    var nrOpt := NrOpt(maxBlkSize, grpSize);
    var incr := RoundUp(maxBlkSize / nrOpt, grpSize);
    RoundUpIsStep(c, grpSize);
    nr := Fill(sizes, incr, maxBlkSize, nrOpt);
    TableIs(sizes[..nr], incr);
  }

  lemma MaxBlkSizeIsLeast(unit: nat, n: nat, k: nat, p: nat)
    requires unit > 0 && n > 0
    ensures IsMaximum(MaxBlkSize(unit, n, k, p), unit, n, k, p)
  {
    hide RoundUp, LeastMultiple;
    AtLeast(unit, n);
    RoundUpIsLeast(DoubleWidth(unit, p, n) / (n + 2 * k), GroupSize(unit, n));
  }

  lemma RoundUpIsStep(c: nat, g: nat)
    requires 0 < c && 0 < g
    ensures 0 < NrOpt(c * g, g) && IsStep(RoundUp(c * g / NrOpt(c * g, g), g), c * g, g)
  {
    hide RoundUp, LeastMultiple;
    Quotient(c * g, c, 0, g);
    RoundUpIsLeast(c * g / NrOpt(c * g, g), g);
  }

  lemma TableIs(s: seq<nat>, incr: nat)
    requires 0 < incr && forall m :: 0 <= m < |s| ==> s[m] == (m + 1) * incr
    ensures forall i, j :: 0 <= i < j < |s| ==> 0 < s[i] < s[j]
    ensures forall i :: 0 <= i < |s| ==> s[i] > 0
  {}
}
