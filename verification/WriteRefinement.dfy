// A write carried out through aligned pieces, scratch pages, read-before-write and data copies
// leaves the store exactly as the naive scatter of the caller's ranges does.
module WriteRefinement {
  import opened Transfers
  import opened Paging
  import opened Alignment

  // Everything the plan refers to exists, and memory allocated for scratch pages starts as zeros.
  ghost predicate Room(e: Env, p: Plan, mem: seq<byte>, store: seq<byte>, hi: nat)
    requires e.ps > 0
  {
    && e.top <= |mem| && p.brk <= |mem|
    && (forall a :: e.top <= a < |mem| ==> mem[a] == 0)
    && Aligned(|store|, e.ps) && hi <= |store|
  }

  ghost predicate ZeroPast(store: seq<byte>, size: nat) {
    forall x :: size <= x < |store| ==> store[x] == 0
  }

  ghost predicate Runs(p: Plan, memory: nat, store: nat) {
    AllFit(p.rbw, memory, store) && CopiesFit(p.src, p.dst, memory) && AllFit(p.aligned, memory, store)
  }

  lemma InvRuns(e: Env, p: Plan, mem: seq<byte>, store: seq<byte>, hi: nat)
    requires ValidEnv(e) && Inv(e, p, hi) && Room(e, p, mem, store, hi)
    ensures Runs(p, |mem|, |store|)
    ensures e.isWrite ==> AllUpward(p.src, p.dst, e.top)
  {
    forall k | 0 <= k < |p.aligned| ensures p.aligned[k].Fits(|mem|, |store|) {
      assert PieceOk(e, p.aligned[k], p.brk, hi);
      if p.aligned[k].off < |store| {
        PagesApart(p.aligned[k].off, |store|, e.ps);
      }
    }
    forall k | 0 <= k < |p.rbw| ensures p.rbw[k].Fits(|mem|, |store|) {
      assert RbwOk(e, p.rbw[k], p.brk, hi);
      PagesApart(p.rbw[k].off, |store|, e.ps);
    }
    forall k | 0 <= k < |p.dst|
      ensures CopyFits(p.src[k], p.dst[k], |mem|)
      ensures e.isWrite ==> Upward(p.src[k], p.dst[k], e.top)
    {
      assert CopyOk(e, p.User(e)[k], p.Page(e)[k], p.brk);
    }
  }

  function Fetched(p: Plan, mem: seq<byte>, store: seq<byte>): (m: seq<byte>)
    requires Runs(p, |mem|, |store|)
    ensures |m| == |mem|
  {
    ReadAll(p.rbw, mem, store)
  }

  function Overlaid(p: Plan, mem: seq<byte>, store: seq<byte>): (m: seq<byte>)
    requires Runs(p, |mem|, |store|)
    ensures |m| == |mem|
  {
    CopyAll(p.src, p.dst, Fetched(p, mem, store))
  }

  // The store after all pages are fetched, the data copied over them, and all pieces written.
  function WriteOut(p: Plan, mem: seq<byte>, store: seq<byte>): (s: seq<byte>)
    requires Runs(p, |mem|, |store|)
    ensures |s| == |store|
  {
    WriteAll(p.aligned, Overlaid(p, mem, store), store)
  }

  // ----- what memory looks like before the pieces are written -----

  // Fetching and copying leave the caller's memory and unallocated memory alone.
  lemma OverlayOutside(e: Env, p: Plan, mem: seq<byte>, store: seq<byte>, hi: nat, a: nat)
    requires ValidEnv(e) && e.isWrite && Inv(e, p, hi) && Room(e, p, mem, store, hi) && Runs(p, |mem|, |store|)
    requires a < e.top || p.brk <= a < |mem|
    ensures Fetched(p, mem, store)[a] == mem[a] && Overlaid(p, mem, store)[a] == mem[a]
  {
    forall k | 0 <= k < |p.rbw| ensures !Fills(p.rbw[k], a) {
      assert RbwOk(e, p.rbw[k], p.brk, hi);
    }
    ReadMisses(p.rbw, mem, store, a);
    forall k | 0 <= k < |p.dst| ensures !Stores(p.dst[k], a) {
      assert CopyOk(e, p.User(e)[k], p.Page(e)[k], p.brk);
    }
    CopyMisses(p.src, p.dst, Fetched(p, mem, store), a);
  }

  // A byte past everything done so far is still as it was.
  lemma WriteOutBeyond(e: Env, p: Plan, mem: seq<byte>, store: seq<byte>, x: nat)
    requires Runs(p, |mem|, |store|) && x < |store|
    requires forall k :: 0 <= k < |p.aligned| ==> p.aligned[k].End() <= x
    ensures WriteOut(p, mem, store)[x] == store[x]
  {
    WriteMisses(p.aligned, Overlaid(p, mem, store), store, x);
  }

  // ----- one partial page -----

  lemma FreshPageFetched(e: Env, p: Plan, off: nat, len: nat, base: nat, mem: seq<byte>, store: seq<byte>, hi: nat, a: nat)
    requires ValidEnv(e) && e.isWrite && Inv(e, p, hi) && hi <= off && InOnePage(e, off, len)
    requires Inv(e, AddPartial(e, p, off, len, base), off + len)
    requires Room(e, AddPartial(e, p, off, len, base), mem, store, off + len) && ZeroPast(store, e.size)
    requires Runs(p, |mem|, |store|) && Runs(AddPartial(e, p, off, len, base), |mem|, |store|)
    requires !SharesPage(p, PageOf(off, e.ps)) && a < |mem|
    ensures PageOf(off, e.ps) + e.ps <= |store|
    ensures Fetched(AddPartial(e, p, off, len, base), mem, store)[a] ==
            if p.brk <= a < p.brk + e.ps then store[PageOf(off, e.ps) + (a - p.brk)]
            else Fetched(p, mem, store)[a]
  {
    hide ScratchOk, CopiesOk, AllFit, ReadAll, CopiesFit;
    var page, q := PageOf(off, e.ps), AddPartial(e, p, off, len, base);
    PagesApart(page, |store|, e.ps);
    if page < e.size {
      ReadSnoc(p.rbw, Iovec(page, e.ps, p.brk), mem, store);
    } else if p.brk <= a < p.brk + e.ps {
      OverlayOutside(e, p, mem, store, hi, a);
    }
  }

  // Data copies over two memories that agree below `n`, where everything they touch lies.
  lemma CopiesAgreeBelow(e: Env, p: Plan, m: seq<byte>, m': seq<byte>, hi: nat, a: nat)
    requires ValidEnv(e) && e.isWrite && Inv(e, p, hi) && |m| == |m'| && p.brk <= |m| && a < p.brk
    requires CopiesFit(p.src, p.dst, |m|) && AllUpward(p.src, p.dst, e.top)
    requires forall b :: 0 <= b < p.brk ==> m[b] == m'[b]
    ensures CopyAll(p.src, p.dst, m)[a] == CopyAll(p.src, p.dst, m')[a]
  {
    CopyAgrees(p.src, p.dst, m, m', e.top, a, 0);
  }

  // The copies of a plan change nothing outside the scratch pages allocated so far.
  lemma CopiesMissOutside(e: Env, p: Plan, m: seq<byte>, hi: nat, a: nat)
    requires ValidEnv(e) && e.isWrite && Inv(e, p, hi) && p.brk <= |m|
    requires CopiesFit(p.src, p.dst, |m|) && (a < e.top || p.brk <= a < |m|)
    ensures CopyAll(p.src, p.dst, m)[a] == m[a]
  {
    forall k | 0 <= k < |p.dst| ensures !Stores(p.dst[k], a) {
      assert CopyOk(e, p.User(e)[k], p.Page(e)[k], p.brk);
    }
    CopyMisses(p.src, p.dst, m, a);
  }

  lemma FreshPlan(e: Env, p: Plan, off: nat, len: nat, base: nat)
    requires ValidEnv(e) && e.isWrite && !SharesPage(p, PageOf(off, e.ps))
    ensures var q := AddPartial(e, p, off, len, base);
            && q.src == p.src + [Iovec(0, len, base)]
            && q.dst == p.dst + [Iovec(off - PageOf(off, e.ps), len, p.brk)]
            && q.aligned == p.aligned + [Iovec(PageOf(off, e.ps), e.ps, p.brk)]
            && q.brk == p.brk + e.ps
  {}

  // The last scratch page holds the caller's bytes where the range lies and the store's elsewhere.
  lemma FreshPageOverlaid(e: Env, p: Plan, off: nat, len: nat, base: nat, mem: seq<byte>, store: seq<byte>, hi: nat, a: nat)
    requires ValidEnv(e) && e.isWrite && Inv(e, p, hi) && hi <= off && InOnePage(e, off, len) && base + len <= e.top
    requires Inv(e, AddPartial(e, p, off, len, base), off + len)
    requires Room(e, AddPartial(e, p, off, len, base), mem, store, off + len) && ZeroPast(store, e.size)
    requires Runs(p, |mem|, |store|) && Runs(AddPartial(e, p, off, len, base), |mem|, |store|)
    requires !SharesPage(p, PageOf(off, e.ps)) && a < p.brk + e.ps
    ensures PageOf(off, e.ps) + e.ps <= |store|
    ensures Overlaid(AddPartial(e, p, off, len, base), mem, store)[a] ==
            if a < p.brk then Overlaid(p, mem, store)[a]
            else
              var x := PageOf(off, e.ps) + (a - p.brk);
              if off <= x < off + len then mem[base + (x - off)] else store[x]
  {
    hide RbwsOk, AddPartial, ReadAll, CopyAll, AllUpward;
    FreshPlan(e, p, off, len, base);
    var page, q := PageOf(off, e.ps), AddPartial(e, p, off, len, base);
    var m, m' := Fetched(p, mem, store), Fetched(q, mem, store);
    InvRuns(e, p, mem, store, hi);
    forall b | 0 <= b < |mem|
      ensures m'[b] == if p.brk <= b < p.brk + e.ps then store[page + (b - p.brk)] else m[b]
      ensures page + e.ps <= |store|
    {
      FreshPageFetched(e, p, off, len, base, mem, store, hi, b);
    }
    var user, d := Iovec(0, len, base), Iovec(off - page, len, p.brk);
    CopySnoc(p.src, p.dst, user, d, m');
    FreshPageFetched(e, p, off, len, base, mem, store, hi, a);
    if a < p.brk {
      CopiesAgreeBelow(e, p, m, m', hi, a);
    } else if off <= page + (a - p.brk) < off + len {
      var b := base + (page + (a - p.brk) - off);
      OverlayOutside(e, p, mem, store, hi, b);
      CopiesMissOutside(e, p, m', hi, b);
    } else {
      CopiesMissOutside(e, p, m', hi, a);
    }
  }

  // The page image at `b` holds, for store offset `x`, the new byte or the byte of `w`.
  predicate Images(w: seq<byte>, page: nat, m: seq<byte>, b: nat, off: nat, mem: seq<byte>, base: nat, len: nat, x: nat)
    requires page <= x < |w| && b + (x - page) < |m| && base + len <= |mem|
  {
    m[b + (x - page)] == if off <= x < off + len then mem[base + (x - off)] else w[x]
  }

  // Writing a page that holds new bytes on [off, off + len) and the store's own bytes elsewhere.
  lemma PageIsSplice(w: seq<byte>, page: nat, m: seq<byte>, b: nat, ps: nat, off: nat, mem: seq<byte>, base: nat, len: nat)
    requires page <= off && off + len <= page + ps <= |w| && b + ps <= |m| && base + len <= |mem|
    requires forall x :: page <= x < page + ps ==> Images(w, page, m, b, off, mem, base, len, x)
    ensures Blit(w, page, m, b, ps) == Blit(w, off, mem, base, len)
  {
    var l, r := Blit(w, page, m, b, ps), Blit(w, off, mem, base, len);
    forall x | 0 <= x < |w| ensures l[x] == r[x] {
      if page <= x < page + ps {
        assert Images(w, page, m, b, off, mem, base, len, x);
      }
    }
  }

  lemma PiecesBelowBrk(e: Env, p: Plan, hi: nat)
    requires ValidEnv(e) && PiecesOk(e, p, hi)
    ensures forall k :: 0 <= k < |p.aligned| ==> p.aligned[k].base + p.aligned[k].len <= p.brk
  {}

  // A fresh page adds its own write and leaves the earlier ones as they were.
  lemma FreshPageWritten(e: Env, p: Plan, off: nat, len: nat, base: nat, mem: seq<byte>, store: seq<byte>, hi: nat)
    requires ValidEnv(e) && e.isWrite && Inv(e, p, hi) && hi <= off && InOnePage(e, off, len) && base + len <= e.top
    requires Inv(e, AddPartial(e, p, off, len, base), off + len)
    requires Room(e, AddPartial(e, p, off, len, base), mem, store, off + len) && ZeroPast(store, e.size)
    requires Runs(p, |mem|, |store|) && Runs(AddPartial(e, p, off, len, base), |mem|, |store|)
    requires !SharesPage(p, PageOf(off, e.ps))
    ensures PageOf(off, e.ps) + e.ps <= |store| && p.brk + e.ps <= |mem|
    ensures WriteOut(AddPartial(e, p, off, len, base), mem, store) ==
            Blit(WriteOut(p, mem, store), PageOf(off, e.ps),
                 Overlaid(AddPartial(e, p, off, len, base), mem, store), p.brk, e.ps)
  {
    hide ScratchOk, CopiesOk, RbwsOk, ZeroPast, Overlaid;
    var page, q := PageOf(off, e.ps), AddPartial(e, p, off, len, base);
    var m, m' := Overlaid(p, mem, store), Overlaid(q, mem, store);
    forall a | 0 <= a < p.brk ensures m'[a] == m[a] {
      FreshPageOverlaid(e, p, off, len, base, mem, store, hi, a);
    }
    PagesApart(page, |store|, e.ps);
    PiecesBelowBrk(e, p, hi);
    WriteReadsOnly(p.aligned, m, m', store, p.brk);
    WriteSnoc(p.aligned, Iovec(page, e.ps, p.brk), m', store);
  }

  lemma FreshPartialWrites(e: Env, p: Plan, off: nat, len: nat, base: nat, mem: seq<byte>, store: seq<byte>, hi: nat)
    requires ValidEnv(e) && e.isWrite && Inv(e, p, hi) && hi <= off && InOnePage(e, off, len) && base + len <= e.top
    requires Inv(e, AddPartial(e, p, off, len, base), off + len)
    requires Room(e, AddPartial(e, p, off, len, base), mem, store, off + len) && ZeroPast(store, e.size)
    requires Runs(p, |mem|, |store|) && Runs(AddPartial(e, p, off, len, base), |mem|, |store|)
    requires !SharesPage(p, PageOf(off, e.ps))
    ensures WriteOut(AddPartial(e, p, off, len, base), mem, store) ==
            Blit(WriteOut(p, mem, store), off, mem, base, len)
  {
    hide AddPartial, Runs, ZeroPast, Overlaid, WriteOut;
    var page, q := PageOf(off, e.ps), AddPartial(e, p, off, len, base);
    var w, m' := WriteOut(p, mem, store), Overlaid(q, mem, store);
    FreshPageWritten(e, p, off, len, base, mem, store, hi);
    FreshPage(e, p, hi, off);
    forall x | page <= x < page + e.ps ensures Images(w, page, m', p.brk, off, mem, base, len, x) {
      WriteOutBeyond(e, p, mem, store, x);
      FreshPageOverlaid(e, p, off, len, base, mem, store, hi, p.brk + (x - page));
    }
    PageIsSplice(w, page, m', p.brk, e.ps, off, mem, base, len);
  }

  // Writing a page after one more patch to it is writing the page and then the patch.
  lemma PagePatched(w: seq<byte>, page: nat, m: seq<byte>, b: nat, ps: nat, off: nat, mem: seq<byte>, base: nat, len: nat)
    requires page <= off && off + len <= page + ps <= |w| && b + ps <= |m| && base + len <= |mem| && base + len <= |m|
    requires forall a :: base <= a < base + len ==> m[a] == mem[a]
    ensures Blit(w, page, Blit(m, b + (off - page), m, base, len), b, ps) ==
            Blit(Blit(w, page, m, b, ps), off, mem, base, len)
  {}

  lemma SharedPlan(e: Env, p: Plan, off: nat, len: nat, base: nat)
    requires ValidEnv(e) && e.isWrite && SharesPage(p, PageOf(off, e.ps))
    ensures AddPartial(e, p, off, len, base) ==
            p.(src := p.src + [Iovec(0, len, base)],
               dst := p.dst + [Iovec(off - PageOf(off, e.ps), len, p.aligned[|p.aligned| - 1].base)])
  {}

  lemma SharedPageWritten(e: Env, p: Plan, off: nat, len: nat, base: nat, mem: seq<byte>, store: seq<byte>, hi: nat)
    requires ValidEnv(e) && e.isWrite && Inv(e, p, hi) && hi <= off && InOnePage(e, off, len) && base + len <= e.top
    requires Runs(p, |mem|, |store|) && Runs(AddPartial(e, p, off, len, base), |mem|, |store|)
    requires SharesPage(p, PageOf(off, e.ps))
    ensures var m, l := Overlaid(p, mem, store), p.aligned[|p.aligned| - 1];
            var at := l.base + (off - PageOf(off, e.ps));
            && at + len <= |mem| && base + len <= |mem|
            && Overlaid(AddPartial(e, p, off, len, base), mem, store) == Blit(m, at, m, base, len)
  {
    hide PiecesOk, ScratchOk, CopiesOk, RbwsOk, AddPartial, ReadAll, CopyAll;
    var l := p.aligned[|p.aligned| - 1];
    SharedIsScratch(e, p, hi, off);
    SharedPlan(e, p, off, len, base);
    CopySnoc(p.src, p.dst, Iovec(0, len, base), Iovec(off - PageOf(off, e.ps), len, l.base), Fetched(p, mem, store));
  }

  lemma SharedPartialWrites(e: Env, p: Plan, off: nat, len: nat, base: nat, mem: seq<byte>, store: seq<byte>, hi: nat)
    requires ValidEnv(e) && e.isWrite && Inv(e, p, hi) && hi <= off && InOnePage(e, off, len) && base + len <= e.top
    requires Room(e, p, mem, store, hi) && off + len <= |store|
    requires Runs(p, |mem|, |store|) && Runs(AddPartial(e, p, off, len, base), |mem|, |store|)
    requires SharesPage(p, PageOf(off, e.ps))
    ensures WriteOut(AddPartial(e, p, off, len, base), mem, store) ==
            Blit(WriteOut(p, mem, store), off, mem, base, len)
  {
    hide RbwsOk, CopiesOk, Fetched, Overlaid, WriteAll;
    var page, q := PageOf(off, e.ps), AddPartial(e, p, off, len, base);
    var m, m' := Overlaid(p, mem, store), Overlaid(q, mem, store);
    var n := |p.aligned| - 1;
    var init, l := p.aligned[..n], p.aligned[n];
    SharedIsScratch(e, p, hi, off);
    SharedPageWritten(e, p, off, len, base, mem, store, hi);
    forall b | base <= b < base + len ensures m[b] == mem[b] {
      OverlayOutside(e, p, mem, store, hi, b);
    }
    assert p.aligned == init + [l];
    WriteSnoc(init, l, m, store);
    WriteSnoc(init, l, m', store);
    WriteReadsOnly(init, m, m', store, l.base);
    PagePatched(WriteAll(init, m, store), page, m, l.base, e.ps, off, mem, base, len);
  }

  lemma PartialWrites(e: Env, p: Plan, off: nat, len: nat, base: nat, mem: seq<byte>, store: seq<byte>, hi: nat)
    requires ValidEnv(e) && e.isWrite && Inv(e, p, hi) && hi <= off && InOnePage(e, off, len) && base + len <= e.top
    requires Room(e, AddPartial(e, p, off, len, base), mem, store, off + len) && ZeroPast(store, e.size)
    ensures Runs(p, |mem|, |store|) && Runs(AddPartial(e, p, off, len, base), |mem|, |store|)
    ensures WriteOut(AddPartial(e, p, off, len, base), mem, store) ==
            Blit(WriteOut(p, mem, store), off, mem, base, len)
  {
    hide ScratchOk, CopiesOk, RbwsOk, Runs, WriteOut;
    PartialInv(e, p, off, len, base, hi);
    InvRuns(e, p, mem, store, hi);
    InvRuns(e, AddPartial(e, p, off, len, base), mem, store, off + len);
    if SharesPage(p, PageOf(off, e.ps)) {
      SharedPartialWrites(e, p, off, len, base, mem, store, hi);
    } else {
      FreshPartialWrites(e, p, off, len, base, mem, store, hi);
    }
  }

  // ----- whole pages -----

  // Two splices side by side are one.
  lemma SplicesJoin(s: seq<byte>, off: nat, mem: seq<byte>, base: nat, n: nat, len: nat)
    requires n <= len && off + len <= |s| && base + len <= |mem|
    ensures Blit(Blit(s, off, mem, base, n), off + n, mem, base + n, len - n) == Blit(s, off, mem, base, len)
  {}

  lemma PieceWrites(e: Env, p: Plan, v: Iovec, mem: seq<byte>, store: seq<byte>, hi: nat)
    requires ValidEnv(e) && e.isWrite && Inv(e, p, hi) && hi <= v.off && WholePages(e, v) && 0 < v.len <= e.max
    requires Room(e, p, mem, store, v.End())
    ensures Runs(p, |mem|, |store|) && Runs(AddPiece(p, v), |mem|, |store|)
    ensures WriteOut(AddPiece(p, v), mem, store) == Blit(WriteOut(p, mem, store), v.off, mem, v.base, v.len)
  {
    hide PiecesOk, ScratchOk, CopiesOk, RbwsOk, CopyAll, ReadAll;
    PieceInv(e, p, v, hi);
    InvRuns(e, p, mem, store, hi);
    InvRuns(e, AddPiece(p, v), mem, store, v.End());
    var m := Overlaid(p, mem, store);
    assert Overlaid(AddPiece(p, v), mem, store) == m;
    WriteSnoc(p.aligned, v, m, store);
    forall b | v.base <= b < v.base + v.len ensures m[b] == mem[b] {
      OverlayOutside(e, p, mem, store, hi, b);
    }
  }

  lemma {:induction false} CloneWrites(e: Env, p: Plan, v: Iovec, mem: seq<byte>, store: seq<byte>, hi: nat)
    requires ValidEnv(e) && e.isWrite && Inv(e, p, hi) && hi <= v.off && WholePages(e, v)
    requires Room(e, p, mem, store, v.End())
    ensures Runs(p, |mem|, |store|) && Runs(AddClone(e, p, v), |mem|, |store|)
    ensures WriteOut(AddClone(e, p, v), mem, store) == Blit(WriteOut(p, mem, store), v.off, mem, v.base, v.len)
    decreases v.len
  {
    hide Inv, Runs, WriteOut, AddClone;
    if v.len == 0 {
      CloneOfNothing(e, p, v);
      InvRuns(e, p, mem, store, hi);
    } else {
      var n := if v.len <= e.max then v.len else e.max;
      var c, rest := Iovec(v.off, n, v.base), Iovec(v.off + n, v.len - n, v.base + n);
      ChunkStep(e, p, v);
      PieceInv(e, p, c, hi);
      PieceWrites(e, p, c, mem, store, hi);
      CloneWrites(e, AddPiece(p, c), rest, mem, store, c.End());
      SplicesJoin(WriteOut(p, mem, store), v.off, mem, v.base, n, v.len);
    }
  }

  // ----- byte ranges -----

  lemma HeadWrites(e: Env, p: Plan, r: Iovec, first: nat, mem: seq<byte>, store: seq<byte>, hi: nat)
    requires ValidEnv(e) && e.isWrite && Inv(e, p, hi) && hi <= r.off && r.base + r.len <= e.top
    requires r.off <= first <= r.End() && (r.off < first ==> InOnePage(e, r.off, first - r.off))
    requires Room(e, AddHead(e, p, r, first), mem, store, first) && ZeroPast(store, e.size)
    ensures Runs(p, |mem|, |store|) && Runs(AddHead(e, p, r, first), |mem|, |store|)
    ensures WriteOut(AddHead(e, p, r, first), mem, store) ==
            Blit(WriteOut(p, mem, store), r.off, mem, r.base, first - r.off)
  {
    hide Inv, Runs, WriteOut, AddPartial;
    if r.off < first {
      PartialWrites(e, p, r.off, first - r.off, r.base, mem, store, hi);
    } else {
      InvRuns(e, p, mem, store, hi);
    }
  }

  lemma TailWrites(e: Env, p: Plan, r: Iovec, last: nat, mem: seq<byte>, store: seq<byte>, hi: nat)
    requires ValidEnv(e) && e.isWrite && Inv(e, p, hi) && hi <= last && r.base + r.len <= e.top
    requires r.off <= last <= r.End() && (last < r.End() ==> InOnePage(e, last, r.End() - last))
    requires Room(e, AddTail(e, p, r, last), mem, store, r.End()) && ZeroPast(store, e.size)
    ensures Runs(p, |mem|, |store|) && Runs(AddTail(e, p, r, last), |mem|, |store|)
    ensures WriteOut(AddTail(e, p, r, last), mem, store) ==
            Blit(WriteOut(p, mem, store), last, mem, r.base + (last - r.off), r.End() - last)
  {
    hide Inv, Runs, WriteOut, AddPartial;
    if last < r.End() {
      PartialWrites(e, p, last, r.End() - last, r.base + (last - r.off), mem, store, hi);
    } else {
      InvRuns(e, p, mem, store, hi);
    }
  }

  lemma BrkGrows(e: Env, p: Plan, r: Iovec)
    requires ValidEnv(e)
    ensures p.brk <= AddRange(e, p, r).brk
    ensures r.len > 0 && CutOf(e, r).ThreeParts? ==>
              var h := AddHead(e, p, r, CutOf(e, r).first);
              p.brk <= h.brk <= AddRange(e, p, r).brk
  {}

  lemma RangeWrites(e: Env, p: Plan, r: Iovec, mem: seq<byte>, store: seq<byte>, hi: nat)
    requires ValidEnv(e) && e.isWrite && Inv(e, p, hi) && hi <= r.off && r.base + r.len <= e.top
    requires Room(e, AddRange(e, p, r), mem, store, r.End()) && ZeroPast(store, e.size)
    ensures Runs(p, |mem|, |store|) && Runs(AddRange(e, p, r), |mem|, |store|)
    ensures WriteOut(AddRange(e, p, r), mem, store) == Blit(WriteOut(p, mem, store), r.off, mem, r.base, r.len)
  {
    hide Inv, Runs, WriteOut, AddPartial, AddClone;
    BrkGrows(e, p, r);
    RangeInv(e, p, r, hi);
    if r.len == 0 {
      InvRuns(e, p, mem, store, hi);
    } else {
      CutFits(e, r);
      match CutOf(e, r)
      case OnePage => PartialWrites(e, p, r.off, r.len, r.base, mem, store, hi);
      case ThreeParts(first, last) =>
        ThreePartsWrite(e, p, r, first, last, mem, store, hi);
    }
  }

  lemma ThreePartsWrite(e: Env, p: Plan, r: Iovec, first: nat, last: nat, mem: seq<byte>, store: seq<byte>, hi: nat)
    requires ValidEnv(e) && e.isWrite && Inv(e, p, hi) && hi <= r.off && 0 < r.len && r.base + r.len <= e.top
    requires CutOf(e, r) == ThreeParts(first, last)
    requires Room(e, AddRange(e, p, r), mem, store, r.End()) && ZeroPast(store, e.size)
    ensures Runs(p, |mem|, |store|) && Runs(AddRange(e, p, r), |mem|, |store|)
    ensures WriteOut(AddRange(e, p, r), mem, store) == Blit(WriteOut(p, mem, store), r.off, mem, r.base, r.len)
  {
    hide Inv, Runs, WriteOut, AddHead, AddTail, AddPartial, InOnePage;
    CutFits(e, r);
    BrkGrows(e, p, r);
    var h, at, body := AddHead(e, p, r, first), if r.off < first then first else hi, Body(r, first, last);
    var b := AddClone(e, h, body);
    HeadInv(e, p, r, first, hi);
    CloneInv(e, h, body, at);
    HeadWrites(e, p, r, first, mem, store, hi);
    CloneWrites(e, h, body, mem, store, at);
    TailWrites(e, b, r, last, mem, store, if first == last then at else last);
    SplicesJoin(WriteOut(p, mem, store), r.off, mem, r.base, first - r.off, last - r.off);
    SplicesJoin(WriteOut(p, mem, store), r.off, mem, r.base, last - r.off, r.len);
  }

  // ----- whole vectors -----

  ghost predicate Holds(e: Env, v: seq<Iovec>, mem: seq<byte>, store: seq<byte>)
    requires e.ps > 0 && e.max > 0
  {
    && Room(e, Align(e, v), mem, store, 0)
    && (forall k :: 0 <= k < |v| ==> v[k].Fits(e.top, |store|))
  }

  // The refinement: carried out in full, the plan for a sorted vector of disjoint ranges is the
  // naive write of the ranges themselves.
  lemma {:induction false} AlignedWriteIsScatter(e: Env, v: seq<Iovec>, mem: seq<byte>, store: seq<byte>)
    requires ValidEnv(e) && e.isWrite && Sorted(e, v) && Holds(e, v, mem, store) && ZeroPast(store, e.size)
    ensures Runs(Align(e, v), |mem|, |store|)
    ensures AllFit(v, |mem|, |store|)
    ensures WriteOut(Align(e, v), mem, store) == WriteAll(v, mem, store)
  {
    if v != [] {
      var init, r := v[..|v| - 1], v[|v| - 1];
      var p := Align(e, init);
      SortedInit(e, v);
      AlignInv(e, init);
      BrkGrows(e, p, r);
      assert forall k :: 0 <= k < |init| ==> init[k] == v[k];
      AlignedWriteIsScatter(e, init, mem, store);
      RangeWrites(e, p, r, mem, store, Frontier(init));
    }
  }
}
