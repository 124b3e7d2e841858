// What the aligned pieces are as a whole: how many there are, and which pages they cover.
module Decomposition {
  import opened Transfers
  import opened Paging
  import opened Alignment

  // ----- the estimates the arrays are allocated with -----

  function Ceiling(len: nat, max: nat): nat
    requires max > 0
  {
    (len + max - 1) / max
  }

  function AlignedEstimate(v: seq<Iovec>, max: nat): nat
    requires max > 0
  {
    if v == [] then 0 else AlignedEstimate(v[..|v| - 1], max) + Ceiling(v[|v| - 1].len, max) + 2
  }

  lemma CeilingStep(len: nat, max: nat)
    requires 0 < max < len
    ensures Ceiling(len, max) == 1 + Ceiling(len - max, max)
  {
    var x := len - 1;
    var q, r := x / max, x % max;
    assert x == q * max + r;
    Distributes(q, 1, max);
    Quotient(x + max, q + 1, r, max);
  }

  lemma {:induction false} ChunkCount(off: nat, len: nat, base: nat, max: nat)
    requires max > 0
    ensures |Chunks(off, len, base, max)| == Ceiling(len, max)
    decreases len
  {
    if len == 0 {
      Quotient(max - 1, 0, max - 1, max);
    } else if len <= max {
      Distributes(1, 0, max);
      Quotient(len + max - 1, 1, len - 1, max);
    } else {
      CeilingStep(len, max);
      ChunkCount(off + max, len - max, base + max, max);
    }
  }

  lemma {:induction false} CeilingGrows(a: nat, b: nat, max: nat)
    requires max > 0 && a <= b
    ensures Ceiling(a, max) <= Ceiling(b, max)
    decreases b
  {
    if max < a {
      CeilingStep(a, max);
      CeilingStep(b, max);
      CeilingGrows(a - max, b - max, max);
    } else {
      ChunkCount(0, a, 0, max);
      ChunkCount(0, b, 0, max);
    }
  }

  predicate Tally(p: Plan) {
    |p.rbw| <= |p.pages| <= |p.src| && |p.src| == |p.dst|
  }

  lemma PartialCounts(e: Env, p: Plan, off: nat, len: nat, base: nat)
    requires Positive(e) && Tally(p)
    ensures var q := AddPartial(e, p, off, len, base);
            && Tally(q)
            && |p.aligned| <= |q.aligned| <= |p.aligned| + 1
            && |q.src| == |p.src| + 1
  {}

  lemma RangeCounts(e: Env, p: Plan, r: Iovec)
    requires Positive(e) && Tally(p)
    ensures var q := AddRange(e, p, r);
            && Tally(q)
            && |p.aligned| <= |q.aligned| <= |p.aligned| + Ceiling(r.len, e.max) + 2
            && |p.src| <= |q.src| <= |p.src| + 2
  {
    hide AddPartial;
    if r.len == 0 {
    } else if CutOf(e, r).OnePage? {
      PartialCounts(e, p, r.off, r.len, r.base);
    } else {
      var first, last := CutOf(e, r).first, CutOf(e, r).last;
      PartialCounts(e, p, r.off, first - r.off, r.base);
      var m := AddClone(e, AddHead(e, p, r, first), Body(r, first, last));
      PartialCounts(e, m, last, r.End() - last, r.base + (last - r.off));
      ChunkCount(first, last - first, r.base + (first - r.off), e.max);
      CeilingGrows(last - first, r.len, e.max);
    }
  }

  // No array is overrun: the lists never outgrow what was estimated before aligning, whatever the
  // page size and the largest transfer.
  lemma {:induction false} EstimatesSuffice(e: Env, v: seq<Iovec>)
    requires Positive(e)
    ensures var p := Align(e, v);
            && Tally(p)
            && |p.aligned| <= AlignedEstimate(v, e.max)
            && |p.src| <= 2 * |v|
  {
    if v != [] {
      EstimatesSuffice(e, v[..|v| - 1]);
      RangeCounts(e, Align(e, v[..|v| - 1]), v[|v| - 1]);
    }
  }

  // No piece is larger than one operation may move.
  ghost predicate NoneLarger(c: seq<Iovec>, max: nat) {
    forall k :: 0 <= k < |c| ==> c[k].len <= max
  }

  lemma {:induction false} ChunksNoneLarger(off: nat, len: nat, base: nat, max: nat)
    requires max > 0
    ensures NoneLarger(Chunks(off, len, base, max), max)
    decreases len
  {
    if len > max {
      ChunksNoneLarger(off + max, len - max, base + max, max);
    }
  }

  lemma PartialNoneLarger(e: Env, p: Plan, off: nat, len: nat, base: nat)
    requires ValidEnv(e) && NoneLarger(p.aligned, e.max)
    ensures NoneLarger(AddPartial(e, p, off, len, base).aligned, e.max)
  {}

  lemma {:induction false} PiecesNoneLarger(e: Env, v: seq<Iovec>)
    requires ValidEnv(e)
    ensures NoneLarger(Align(e, v).aligned, e.max)
  {
    hide AddPartial;
    if v != [] {
      var p, r := Align(e, v[..|v| - 1]), v[|v| - 1];
      PiecesNoneLarger(e, v[..|v| - 1]);
      if r.len == 0 {
      } else if CutOf(e, r).OnePage? {
        PartialNoneLarger(e, p, r.off, r.len, r.base);
      } else {
        var first, last := CutOf(e, r).first, CutOf(e, r).last;
        PartialNoneLarger(e, p, r.off, first - r.off, r.base);
        ChunksNoneLarger(first, last - first, r.base + (first - r.off), e.max);
        PartialNoneLarger(e, AddClone(e, AddHead(e, p, r, first), Body(r, first, last)), last, r.End() - last,
                          r.base + (last - r.off));
      }
    }
  }

  // The estimate does not depend on the order of the ranges.
  lemma {:induction false} EstimateWithout(v: seq<Iovec>, k: nat, max: nat)
    requires max > 0 && k < |v|
    ensures AlignedEstimate(v, max) == AlignedEstimate(v[..k] + v[k + 1..], max) + Ceiling(v[k].len, max) + 2
  {
    var n := |v| - 1;
    if k == n {
      assert v[..k] + v[k + 1..] == v[..n];
    } else {
      var w := v[..k] + v[k + 1..];
      EstimateWithout(v[..n], k, max);
      assert w[..|w| - 1] == v[..n][..k] + v[..n][k + 1..];
      assert w[|w| - 1] == v[n];
    }
  }

  lemma {:induction false} EstimateOfPermutation(v: seq<Iovec>, w: seq<Iovec>, max: nat)
    requires max > 0 && multiset(v) == multiset(w)
    ensures AlignedEstimate(v, max) == AlignedEstimate(w, max)
  {
    if v == [] {
      assert |multiset(v)| == |multiset(w)|;
    } else {
      var x := v[|v| - 1];
      assert x in multiset(v) && x in multiset(w);
      var k :| 0 <= k < |w| && w[k] == x;
      MultisetsWithout(v, w, k);
      EstimateOfPermutation(v[..|v| - 1], w[..k] + w[k + 1..], max);
      EstimateWithout(w, k, max);
    }
  }

  lemma MultisetsWithout(v: seq<Iovec>, w: seq<Iovec>, k: nat)
    requires multiset(v) == multiset(w) && v != [] && k < |w| && w[k] == v[|v| - 1]
    ensures multiset(v[..|v| - 1]) == multiset(w[..k] + w[k + 1..])
  {
    var init, x, w' := v[..|v| - 1], v[|v| - 1], w[..k] + w[k + 1..];
    assert v == init + [x] && w == w[..k] + [x] + w[k + 1..];
    assert multiset(v) == multiset(init) + multiset{x};
    assert multiset(w) == multiset(w[..k] + [x]) + multiset(w[k + 1..]);
    Cancelled(multiset(init), multiset(w'), multiset{x});
  }

  lemma Cancelled<T>(a: multiset<T>, b: multiset<T>, c: multiset<T>)
    requires a + c == b + c
    ensures a == b
  {
    assert a == (a + c) - c && b == (b + c) - c;
  }

  // ----- the pages covered -----

  // Byte `x` lies on a page that holds a byte of `r`.
  predicate Touches(e: Env, r: Iovec, x: nat)
    requires e.ps > 0
  {
    r.len > 0 && PageOf(r.off, e.ps) <= x < NextPage(r.End(), e.ps)
  }

  ghost predicate Touched(e: Env, v: seq<Iovec>, x: nat)
    requires e.ps > 0
  {
    exists k :: 0 <= k < |v| && Touches(e, v[k], x)
  }

  // Touching is what it says.
  lemma TouchesIsSharingAPage(e: Env, r: Iovec, x: nat)
    requires e.ps > 0
    ensures Touches(e, r, x) <==> exists y: nat :: r.Covers(y) && PageOf(y, e.ps) == PageOf(x, e.ps)
  {
    if Touches(e, r, x) {
      var y := if x < r.off then r.off else if x < r.End() then x else r.End() - 1;
      assert r.Covers(y);
      if x < r.off {
        PageOfWithin(x, PageOf(r.off, e.ps), e.ps);
      } else if r.End() <= x {
        var n := NextPage(r.End(), e.ps);
        Quotient(e.ps, 1, 0, e.ps);
        AlignedSum(n, e.ps, e.ps);
        PageOfWithin(y, n - e.ps, e.ps);
        PageOfWithin(x, n - e.ps, e.ps);
      }
    }
    if y: nat :| r.Covers(y) && PageOf(y, e.ps) == PageOf(x, e.ps) {
      PageOfAbove(PageOf(r.off, e.ps), y, e.ps);
      PagesApart(PageOf(y, e.ps), NextPage(r.End(), e.ps), e.ps);
    }
  }

  lemma CoveredSnoc(v: seq<Iovec>, l: Iovec, x: nat)
    ensures Covered(v + [l], x) <==> Covered(v, x) || l.Covers(x)
  {
    var w := v + [l];
    if Covered(w, x) {
      var k :| 0 <= k < |w| && w[k].Covers(x);
      assert k < |v| ==> v[k].Covers(x);
    }
    if Covered(v, x) {
      var k :| 0 <= k < |v| && v[k].Covers(x);
      assert w[k].Covers(x);
    }
    assert w[|v|] == l;
  }

  lemma PartialCovers(e: Env, p: Plan, off: nat, len: nat, base: nat, hi: nat, x: nat)
    requires ValidEnv(e) && Inv(e, p, hi) && hi <= off
    ensures Covered(AddPartial(e, p, off, len, base).aligned, x) <==>
            Covered(p.aligned, x) || PageOf(off, e.ps) <= x < PageOf(off, e.ps) + e.ps
  {
    var page := PageOf(off, e.ps);
    if SharesPage(p, page) {
      SharedIsScratch(e, p, hi, off);
      assert p.aligned[|p.aligned| - 1].Covers(x) <==> page <= x < page + e.ps;
    } else {
      CoveredSnoc(p.aligned, Iovec(page, e.ps, p.brk), x);
    }
  }

  lemma {:induction false} CloneCovers(e: Env, p: Plan, v: Iovec, x: nat)
    requires ValidEnv(e) && WholePages(e, v)
    ensures Covered(AddClone(e, p, v).aligned, x) <==> Covered(p.aligned, x) || v.Covers(x)
    decreases v.len
  {
    if v.len == 0 {
      CloneOfNothing(e, p, v);
    } else {
      var n := if v.len <= e.max then v.len else e.max;
      var c, rest := Iovec(v.off, n, v.base), Iovec(v.off + n, v.len - n, v.base + n);
      ChunkStep(e, p, v);
      CoveredSnoc(p.aligned, c, x);
      CloneCovers(e, AddPiece(p, c), rest, x);
    }
  }

  lemma RangeCovers(e: Env, p: Plan, r: Iovec, hi: nat, x: nat)
    requires ValidEnv(e) && Inv(e, p, hi) && hi <= r.off && r.base + r.len <= e.top
    ensures Covered(AddRange(e, p, r).aligned, x) <==> Covered(p.aligned, x) || Touches(e, r, x)
  {
    hide Inv, AddPartial, AddClone;
    if r.len > 0 {
      CutFits(e, r);
      match CutOf(e, r)
      case OnePage =>
        PartialCovers(e, p, r.off, r.len, r.base, hi, x);
        OnePageEnds(e, r);
      case ThreeParts(first, last) =>
        HeadInv(e, p, r, first, hi);
        var h, at := AddHead(e, p, r, first), if r.off < first then first else hi;
        var body := Body(r, first, last);
        if r.off < first {
          PartialCovers(e, p, r.off, first - r.off, r.base, hi, x);
        }
        CloneInv(e, h, body, at);
        CloneCovers(e, h, body, x);
        if last < r.End() {
          var b := if first == last then at else last;
          PartialCovers(e, AddClone(e, h, body), last, r.End() - last, r.base + (last - r.off), b, x);
          PageOfWithin(last, last, e.ps);
        }
        if Aligned(r.off, e.ps) {
          PageOfWithin(r.off, r.off, e.ps);
        }
        if Aligned(r.End(), e.ps) {
          PageOfWithin(r.End(), r.End(), e.ps);
        }
    }
  }

  lemma OnePageEnds(e: Env, r: Iovec)
    requires ValidEnv(e) && InOnePage(e, r.off, r.len)
    ensures NextPage(r.End(), e.ps) == PageOf(r.off, e.ps) + e.ps
  {
    var page := PageOf(r.off, e.ps);
    Quotient(e.ps, 1, 0, e.ps);
    AlignedSum(page, e.ps, e.ps);
    if r.End() < page + e.ps {
      PageOfWithin(r.End(), page, e.ps);
      if Aligned(r.End(), e.ps) {
        PagesApart(page, r.End(), e.ps);
      }
    }
  }

  lemma TouchedSnoc(e: Env, v: seq<Iovec>, r: Iovec, x: nat)
    requires e.ps > 0
    ensures Touched(e, v + [r], x) <==> Touched(e, v, x) || Touches(e, r, x)
  {
    hide Touches;
    var w := v + [r];
    if Touched(e, w, x) {
      var k :| 0 <= k < |w| && Touches(e, w[k], x);
      assert k < |v| ==> Touches(e, v[k], x);
    }
    if Touched(e, v, x) {
      var k :| 0 <= k < |v| && Touches(e, v[k], x);
      assert Touches(e, w[k], x);
    }
    assert w[|v|] == r;
  }

  // The pieces cover exactly the pages the ranges touch.
  lemma {:induction false} CoversTouchedPages(e: Env, v: seq<Iovec>, x: nat)
    requires ValidEnv(e) && Sorted(e, v)
    ensures Covered(Align(e, v).aligned, x) <==> Touched(e, v, x)
  {
    if v != [] {
      var init, r := v[..|v| - 1], v[|v| - 1];
      SortedInit(e, v);
      AlignInv(e, init);
      CoversTouchedPages(e, init, x);
      RangeCovers(e, Align(e, init), r, Frontier(init), x);
      TouchedSnoc(e, init, r, x);
      assert v == init + [r];
    }
  }

  // The pieces of a sorted vector of disjoint ranges: in order and disjoint, aligned in offset and
  // length, none larger than one operation may move, and on exactly the touched pages.
  lemma AlignedDecomposition(e: Env, v: seq<Iovec>)
    requires ValidEnv(e) && Sorted(e, v)
    ensures var a := Align(e, v).aligned;
            && Ordered(a)
            && (forall k :: 0 <= k < |a| ==> Aligned(a[k].off, e.ps) && Aligned(a[k].len, e.ps) && 0 < a[k].len <= e.max)
            && (forall x: nat :: Covered(a, x) <==> Touched(e, v, x))
  {
    var p := Align(e, v);
    AlignInv(e, v);
    forall k | 0 <= k < |p.aligned|
      ensures Aligned(p.aligned[k].off, e.ps) && Aligned(p.aligned[k].len, e.ps) && 0 < p.aligned[k].len <= e.max
    {
      assert PieceOk(e, p.aligned[k], p.brk, Frontier(v));
    }
    forall x: nat ensures Covered(p.aligned, x) <==> Touched(e, v, x) {
      CoversTouchedPages(e, v, x);
    }
  }

  ghost predicate AllAligned(c: seq<Iovec>, ps: nat)
    requires ps > 0
  {
    forall k :: 0 <= k < |c| ==> Aligned(c[k].off, ps) && Aligned(c[k].len, ps)
  }

  // A run of whole pages stays aligned when cut exactly when it needs no cut or the largest
  // transfer is itself a whole number of pages, which nothing in the driver makes sure of.
  lemma {:induction false} CutsStayAligned(off: nat, len: nat, base: nat, max: nat, ps: nat)
    requires ps > 0 && max > 0 && len > 0 && Aligned(off, ps) && Aligned(len, ps)
    ensures AllAligned(Chunks(off, len, base, max), ps) <==> len <= max || Aligned(max, ps)
    decreases len
  {
    var c := Chunks(off, len, base, max);
    if max < len {
      var tail := Chunks(off + max, len - max, base + max, max);
      assert c == [Iovec(off, max, base)] + tail;
      assert c[0] == Iovec(off, max, base);
      if Aligned(max, ps) {
        AlignedSum(off, max, ps);
        AlignedSum(len, max, ps);
        CutsStayAligned(off + max, len - max, base + max, max, ps);
        assert AllAligned(tail, ps);
      }
    }
  }

  // Two pages of 4 bytes cut by 6.
  lemma CutOffTheGrid()
    ensures Chunks(0, 8, 0, 6) == [Iovec(0, 6, 0), Iovec(6, 2, 6)] && !AllAligned(Chunks(0, 8, 0, 6), 4)
  {
    assert Chunks(6, 2, 6, 6) == [Iovec(6, 2, 6)];
    assert Chunks(0, 8, 0, 6)[0].len % 4 == 2;
  }
}
