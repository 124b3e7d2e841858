// How often a byte of the caller's ranges is carried: by pieces that move caller memory directly,
// and by data copies to or from a scratch page.
module Carriers {
  import opened Transfers
  import opened Paging
  import opened Alignment

  // The object page held at scratch address `b`.
  function PageAt(a: seq<Iovec>, b: nat): nat {
    if a == [] then 0
    else if a[|a| - 1].base == b then a[|a| - 1].off
    else PageAt(a[..|a| - 1], b)
  }

  function DirectCount(e: Env, a: seq<Iovec>, x: nat): nat {
    if a == [] then 0
    else
      var l := a[|a| - 1];
      DirectCount(e, a[..|a| - 1], x) + if Direct(e, l) && l.Covers(x) then 1 else 0
  }

  predicate Copies(a: seq<Iovec>, d: Iovec, x: nat) {
    PageAt(a, d.base) + d.off <= x < PageAt(a, d.base) + d.off + d.len
  }

  function CopyCount(a: seq<Iovec>, pages: seq<Iovec>, x: nat): nat {
    if pages == [] then 0
    else CopyCount(a, pages[..|pages| - 1], x) + if Copies(a, pages[|pages| - 1], x) then 1 else 0
  }

  // The direct pieces and the copies that carry byte `x`.
  function CarrierCount(e: Env, p: Plan, x: nat): nat {
    DirectCount(e, p.aligned, x) + CopyCount(p.aligned, p.Page(e), x)
  }

  // The ranges that ask for it.
  function AskedCount(v: seq<Iovec>, x: nat): nat {
    if v == [] then 0 else AskedCount(v[..|v| - 1], x) + if v[|v| - 1].Covers(x) then 1 else 0
  }

  lemma DirectSnoc(e: Env, a: seq<Iovec>, l: Iovec, x: nat)
    ensures DirectCount(e, a + [l], x) == DirectCount(e, a, x) + if Direct(e, l) && l.Covers(x) then 1 else 0
  {}

  lemma CopySnoc(a: seq<Iovec>, pages: seq<Iovec>, d: Iovec, x: nat)
    ensures CopyCount(a, pages + [d], x) == CopyCount(a, pages, x) + if Copies(a, d, x) then 1 else 0
  {}

  // A piece at an address no copy uses changes no copy.
  lemma {:induction false} CopiesStay(a: seq<Iovec>, l: Iovec, pages: seq<Iovec>, x: nat)
    requires forall i :: 0 <= i < |pages| ==> pages[i].base != l.base
    ensures CopyCount(a + [l], pages, x) == CopyCount(a, pages, x)
  {
    if pages != [] {
      var n := |pages| - 1;
      assert (a + [l])[..|a|] == a;
      assert pages[n].base != l.base;
      CopiesStay(a, l, pages[..n], x);
    }
  }

  lemma PageBases(e: Env, p: Plan, hi: nat)
    requires ValidEnv(e) && Inv(e, p, hi)
    ensures forall i :: 0 <= i < |p.Page(e)| ==> e.top <= p.Page(e)[i].base && p.Page(e)[i].base + e.ps <= p.brk
  {}

  // What a partial range adds.
  lemma PartialShape(e: Env, p: Plan, off: nat, len: nat, base: nat, hi: nat)
    requires ValidEnv(e) && Inv(e, p, hi) && hi <= off
    ensures var q, page, b := AddPartial(e, p, off, len, base), PageOf(off, e.ps), ScratchBase(p, PageOf(off, e.ps));
            && q.Page(e) == p.Page(e) + [Iovec(off - page, len, b)]
            && (SharesPage(p, page) ==> q.aligned == p.aligned && p.aligned[|p.aligned| - 1] == Iovec(page, e.ps, b))
            && (!SharesPage(p, page) ==> q.aligned == p.aligned + [Iovec(page, e.ps, b)] && b == p.brk)
            && e.top <= p.brk
  {
    if SharesPage(p, PageOf(off, e.ps)) {
      SharedIsScratch(e, p, hi, off);
    }
  }

  lemma PartialCarries(e: Env, p: Plan, off: nat, len: nat, base: nat, hi: nat, x: nat)
    requires ValidEnv(e) && Inv(e, p, hi) && hi <= off
    ensures CarrierCount(e, AddPartial(e, p, off, len, base), x) ==
            CarrierCount(e, p, x) + if off <= x < off + len then 1 else 0
  {
    hide Inv, AddPartial, CopyCount, DirectCount;
    PartialShape(e, p, off, len, base, hi);
    PageBases(e, p, hi);
    var q, page, b := AddPartial(e, p, off, len, base), PageOf(off, e.ps), ScratchBase(p, PageOf(off, e.ps));
    if !SharesPage(p, page) {
      DirectSnoc(e, p.aligned, Iovec(page, e.ps, b), x);
      CopiesStay(p.aligned, Iovec(page, e.ps, b), p.Page(e), x);
    }
    CopySnoc(q.aligned, p.Page(e), Iovec(off - page, len, b), x);
    assert PageAt(q.aligned, b) == page;
  }

  lemma PieceCarries(e: Env, p: Plan, v: Iovec, hi: nat, x: nat)
    requires ValidEnv(e) && Inv(e, p, hi) && v.base + v.len <= e.top && 0 < v.len
    ensures CarrierCount(e, AddPiece(p, v), x) == CarrierCount(e, p, x) + if v.Covers(x) then 1 else 0
  {
    hide Inv, CopyCount, DirectCount;
    PageBases(e, p, hi);
    DirectSnoc(e, p.aligned, v, x);
    CopiesStay(p.aligned, v, p.Page(e), x);
    assert AddPiece(p, v).Page(e) == p.Page(e);
  }

  lemma {:induction false} CloneCarries(e: Env, p: Plan, v: Iovec, hi: nat, x: nat)
    requires ValidEnv(e) && Inv(e, p, hi) && hi <= v.off && WholePages(e, v)
    ensures CarrierCount(e, AddClone(e, p, v), x) == CarrierCount(e, p, x) + if v.Covers(x) then 1 else 0
    decreases v.len
  {
    hide Inv, AddClone, CarrierCount;
    if v.len == 0 {
      CloneOfNothing(e, p, v);
    } else {
      var n := if v.len <= e.max then v.len else e.max;
      var c, rest := Iovec(v.off, n, v.base), Iovec(v.off + n, v.len - n, v.base + n);
      ChunkStep(e, p, v);
      PieceInv(e, p, c, hi);
      PieceCarries(e, p, c, hi, x);
      CloneCarries(e, AddPiece(p, c), rest, c.End(), x);
    }
  }

  lemma RangeCarries(e: Env, p: Plan, r: Iovec, hi: nat, x: nat)
    requires ValidEnv(e) && Inv(e, p, hi) && hi <= r.off && r.base + r.len <= e.top
    ensures CarrierCount(e, AddRange(e, p, r), x) == CarrierCount(e, p, x) + if r.Covers(x) then 1 else 0
  {
    hide Inv, AddPartial, AddClone, CarrierCount;
    if r.len > 0 {
      CutFits(e, r);
      match CutOf(e, r)
      case OnePage => PartialCarries(e, p, r.off, r.len, r.base, hi, x);
      case ThreeParts(first, last) =>
        HeadInv(e, p, r, first, hi);
        var h, at := AddHead(e, p, r, first), if r.off < first then first else hi;
        CloneInv(e, h, Body(r, first, last), at);
        if r.off < first {
          PartialCarries(e, p, r.off, first - r.off, r.base, hi, x);
        }
        CloneCarries(e, h, Body(r, first, last), at, x);
        if last < r.End() {
          PartialCarries(e, AddClone(e, h, Body(r, first, last)), last, r.End() - last, r.base + (last - r.off),
                         if first == last then at else last, x);
        }
    }
  }

  // Every byte is carried as often as it is asked for, ...
  lemma {:induction false} CarriedAsAsked(e: Env, v: seq<Iovec>, x: nat)
    requires ValidEnv(e) && Sorted(e, v)
    ensures CarrierCount(e, Align(e, v), x) == AskedCount(v, x)
  {
    if v != [] {
      var init, r := v[..|v| - 1], v[|v| - 1];
      SortedInit(e, v);
      AlignInv(e, init);
      CarriedAsAsked(e, init, x);
      RangeCarries(e, Align(e, init), r, Frontier(init), x);
    } else {
      assert CarrierCount(e, EmptyPlan(e), x) == 0;
    }
  }

  lemma {:induction false} AskedOnce(v: seq<Iovec>, x: nat)
    requires Ordered(v)
    ensures AskedCount(v, x) == if Covered(v, x) then 1 else 0
  {
    if v != [] {
      var init, l := v[..|v| - 1], v[|v| - 1];
      assert forall k :: 0 <= k < |init| ==> init[k] == v[k];
      AskedOnce(init, x);
      if l.Covers(x) {
        assert forall k :: 0 <= k < |init| ==> !init[k].Covers(x);
        assert v[|v| - 1].Covers(x);
      } else if Covered(v, x) {
        var k :| 0 <= k < |v| && v[k].Covers(x);
        assert init[k].Covers(x);
      }
    }
  }

  // ... which for ranges that do not overlap is exactly once.
  lemma CarriedExactlyOnce(e: Env, v: seq<Iovec>, x: nat)
    requires ValidEnv(e) && Sorted(e, v)
    ensures CarrierCount(e, Align(e, v), x) == if Covered(v, x) then 1 else 0
  {
    CarriedAsAsked(e, v, x);
    AskedOnce(v, x);
  }
}
