// A read carried out through aligned pieces and scratch pages leaves in every caller buffer the
// bytes of its range, as the naive read of the ranges does. The ranges may come in any order and
// may overlap: the driver reads them all the same, and a range may then find its page in another
// caller's buffer. Only the buffers have to be disjoint.
module ReadRefinement {
  import opened Transfers
  import opened Paging
  import opened Alignment
  import opened WriteRefinement

  function ReadOut(p: Plan, mem: seq<byte>, store: seq<byte>): (m: seq<byte>)
    requires Runs(p, |mem|, |store|)
    ensures |m| == |mem|
  {
    CopyAll(p.src, p.dst, ReadAll(p.aligned, mem, store))
  }

  predicate Disjoint(a: nat, m: nat, b: nat, n: nat) {
    a + m <= b || b + n <= a
  }

  // ----- what a plan for reading keeps -----

  // A piece: whole pages within the store, in caller memory or in a scratch page.
  predicate PieceFits(e: Env, l: Iovec, brk: nat, cap: nat)
    requires e.ps > 0
  {
    && 0 < l.len <= e.max && Aligned(l.off, e.ps) && Aligned(l.len, e.ps)
    && l.End() <= cap && l.base + l.len <= brk && (l.base + l.len <= e.top || e.top <= l.base)
  }

  ghost predicate PiecesFit(e: Env, p: Plan, cap: nat)
    requires e.ps > 0
  {
    && e.top <= p.brk
    && (forall k :: 0 <= k < |p.aligned| ==> PieceFits(e, p.aligned[k], p.brk, cap))
    && (forall j, k :: 0 <= j < k < |p.aligned| ==>
          Disjoint(p.aligned[j].base, p.aligned[j].len, p.aligned[k].base, p.aligned[k].len))
  }

  // The copy reads out of piece `k`.
  predicate OutOf(a: seq<Iovec>, s: Iovec, k: nat) {
    k < |a| && a[k].base == s.base && s.off + s.len <= a[k].len
  }

  ghost predicate FromPiece(a: seq<Iovec>, s: Iovec) {
    exists k: nat :: OutOf(a, s, k)
  }

  predicate IntoCaller(e: Env, s: Iovec, d: Iovec) {
    d.off == 0 && d.base + d.len <= e.top && s.len == d.len
  }

  // Copies go from pieces to caller memory that no piece and no other copy uses.
  ghost predicate CopiesFromPieces(e: Env, p: Plan) {
    && |p.src| == |p.dst|
    && (forall i :: 0 <= i < |p.dst| ==> IntoCaller(e, p.src[i], p.dst[i]))
    && (forall i :: 0 <= i < |p.src| ==> FromPiece(p.aligned, p.src[i]))
    && (forall i, k :: 0 <= i < |p.dst| && 0 <= k < |p.aligned| ==>
          Disjoint(p.dst[i].base, p.dst[i].len, p.aligned[k].base, p.aligned[k].len))
    && (forall i, j :: 0 <= i < j < |p.dst| ==> Disjoint(p.dst[i].base, p.dst[i].len, p.dst[j].base, p.dst[j].len))
  }

  ghost predicate ReadPlan(e: Env, p: Plan, cap: nat)
    requires e.ps > 0
  {
    PiecesFit(e, p, cap) && CopiesFromPieces(e, p)
  }

  // Neither a piece nor a copy touches these `n` bytes.
  ghost predicate Clear(p: Plan, b: nat, n: nat) {
    && (forall k :: 0 <= k < |p.aligned| ==> Disjoint(p.aligned[k].base, p.aligned[k].len, b, n))
    && (forall i :: 0 <= i < |p.dst| ==> Disjoint(p.dst[i].base, p.dst[i].len, b, n))
  }

  // Address `a` gets byte `x` of the store: straight from a piece, or by a copy out of one.
  ghost predicate ByPiece(p: Plan, a: int, x: int) {
    exists k :: 0 <= k < |p.aligned| && PieceCarries(p.aligned[k], a, x)
  }

  ghost predicate PieceCarries(l: Iovec, a: int, x: int) {
    Fills(l, a) && x == l.off + (a - l.base)
  }

  ghost predicate CopyCarries(a: seq<Iovec>, s: Iovec, d: Iovec, k: nat, at: int, x: int) {
    OutOf(a, s, k) && d.base <= at < d.base + d.len && x == a[k].off + s.off + (at - d.base)
  }

  ghost predicate ByCopy(p: Plan, a: int, x: int)
    requires |p.src| == |p.dst|
  {
    exists i, k: nat :: 0 <= i < |p.dst| && CopyCarries(p.aligned, p.src[i], p.dst[i], k, a, x)
  }

  ghost predicate Carries(p: Plan, a: int, x: int)
    requires |p.src| == |p.dst|
  {
    ByPiece(p, a, x) || ByCopy(p, a, x)
  }

  // ----- what such a plan does -----

  lemma PlanRuns(e: Env, p: Plan, cap: nat, mem: seq<byte>, store: seq<byte>)
    requires e.ps > 0 && ReadPlan(e, p, cap) && p.rbw == [] && p.brk <= |mem| && cap <= |store|
    ensures Runs(p, |mem|, |store|)
  {
    forall k | 0 <= k < |p.aligned| ensures p.aligned[k].Fits(|mem|, |store|) {
      assert PieceFits(e, p.aligned[k], p.brk, cap);
    }
    forall i | 0 <= i < |p.dst| ensures CopyFits(p.src[i], p.dst[i], |mem|) {
      assert IntoCaller(e, p.src[i], p.dst[i]);
      var k: nat :| OutOf(p.aligned, p.src[i], k);
      assert PieceFits(e, p.aligned[k], p.brk, cap);
    }
  }

  // What a piece has read stays there: no copy overwrites it.
  lemma PieceRead(e: Env, p: Plan, cap: nat, mem: seq<byte>, store: seq<byte>, k: nat, a: nat)
    requires e.ps > 0 && ReadPlan(e, p, cap) && Runs(p, |mem|, |store|)
    requires k < |p.aligned| && Fills(p.aligned[k], a) && a < |mem|
    ensures p.aligned[k].Fits(|mem|, |store|)
    ensures ReadAll(p.aligned, mem, store)[a] == store[p.aligned[k].off + (a - p.aligned[k].base)]
    ensures forall i :: 0 <= i < |p.dst| ==> !Stores(p.dst[i], a)
  {
    forall j | 0 <= j < |p.aligned| && j != k ensures !Fills(p.aligned[j], a) {
      assert if j < k then Disjoint(p.aligned[j].base, p.aligned[j].len, p.aligned[k].base, p.aligned[k].len)
             else Disjoint(p.aligned[k].base, p.aligned[k].len, p.aligned[j].base, p.aligned[j].len);
    }
    ReadHits(p.aligned, mem, store, k, a);
    forall i | 0 <= i < |p.dst| ensures !Stores(p.dst[i], a) {
      assert IntoCaller(e, p.src[i], p.dst[i]);
      assert Disjoint(p.dst[i].base, p.dst[i].len, p.aligned[k].base, p.aligned[k].len);
    }
  }

  // A copy out of memory no copy changes stores what is there, if no other copy stores to `a`.
  lemma {:induction false} CopyHits(src: seq<Iovec>, dst: seq<Iovec>, m: seq<byte>, i: nat, a: nat)
    requires CopiesFit(src, dst, |m|) && a < |m| && i < |dst| == |src| && Stores(dst[i], a)
    requires forall j :: 0 <= j < |dst| && j != i ==> !Stores(dst[j], a)
    requires forall j :: 0 <= j < |dst| ==> !Stores(dst[j], src[i].base + src[i].off + (a - (dst[i].base + dst[i].off)))
    ensures CopyFits(src[i], dst[i], |m|)
    ensures CopyAll(src, dst, m)[a] == m[src[i].base + src[i].off + (a - (dst[i].base + dst[i].off))]
  {
    hide CopyAll, CopiesFit;
    var n := |dst| - 1;
    CopyLast(src, dst, m, a);
    var b := src[i].base + src[i].off + (a - (dst[i].base + dst[i].off));
    if i == n {
      assert forall j :: 0 <= j < n ==> dst[..n][j] == dst[j];
      CopyMisses(src[..n], dst[..n], m, b);
    } else {
      assert !Stores(dst[n], a);
      assert forall j :: 0 <= j < n ==> dst[..n][j] == dst[j] && src[..n][j] == src[j];
      CopyHits(src[..n], dst[..n], m, i, a);
    }
  }

  lemma CarriedByPiece(e: Env, p: Plan, cap: nat, mem: seq<byte>, store: seq<byte>, a: nat, x: nat)
    requires e.ps > 0 && ReadPlan(e, p, cap) && Runs(p, |mem|, |store|) && a < |mem| && ByPiece(p, a, x)
    ensures x < |store| && ReadOut(p, mem, store)[a] == store[x]
  {
    var k :| 0 <= k < |p.aligned| && PieceCarries(p.aligned[k], a, x);
    PieceRead(e, p, cap, mem, store, k, a);
    CopyMisses(p.src, p.dst, ReadAll(p.aligned, mem, store), a);
  }

  lemma CarriedByCopy(e: Env, p: Plan, cap: nat, mem: seq<byte>, store: seq<byte>, a: nat, x: nat)
    requires e.ps > 0 && ReadPlan(e, p, cap) && Runs(p, |mem|, |store|) && a < |mem| && ByCopy(p, a, x)
    ensures x < |store| && ReadOut(p, mem, store)[a] == store[x]
  {
    hide ReadPlan, Runs, CopyAll, ReadAll, CopiesFit, AllFit;
    PlanCopies(e, p, cap);
    RunsParts(p, |mem|, |store|);
    var i, k: nat :| 0 <= i < |p.dst| && CopyCarries(p.aligned, p.src[i], p.dst[i], k, a, x);
    CopyCarried(e, p, cap, mem, store, i, k, a, x);
  }

  lemma RunsParts(p: Plan, memory: nat, store: nat)
    requires Runs(p, memory, store)
    ensures AllFit(p.aligned, memory, store) && CopiesFit(p.src, p.dst, memory) && |p.src| == |p.dst|
  {}

  lemma PlanCopies(e: Env, p: Plan, cap: nat)
    requires e.ps > 0 && ReadPlan(e, p, cap)
    ensures CopiesFromPieces(e, p)
  {}

  lemma CopyCarried(e: Env, p: Plan, cap: nat, mem: seq<byte>, store: seq<byte>, i: nat, k: nat, a: nat, x: nat)
    requires e.ps > 0 && ReadPlan(e, p, cap) && CopiesFromPieces(e, p) && Runs(p, |mem|, |store|) && a < |mem|
    requires |p.src| == |p.dst| && i < |p.dst| && CopyCarries(p.aligned, p.src[i], p.dst[i], k, a, x)
    ensures x < |store| && ReadOut(p, mem, store)[a] == store[x]
  {
    hide ReadPlan, Runs, CopyAll, ReadAll, CopiesFit, AllFit, CopiesFromPieces;
    RunsParts(p, |mem|, |store|);
    var b := p.src[i].base + p.src[i].off + (a - p.dst[i].base);
    PieceInMemory(p, k, |mem|, |store|);
    OnlyCopy(e, p, i, a);
    PieceRead(e, p, cap, mem, store, k, b);
    assert b == p.src[i].base + p.src[i].off + (a - (p.dst[i].base + p.dst[i].off));
    CopyHits(p.src, p.dst, ReadAll(p.aligned, mem, store), i, a);
  }

  lemma PieceInMemory(p: Plan, k: nat, memory: nat, store: nat)
    requires AllFit(p.aligned, memory, store) && k < |p.aligned|
    ensures p.aligned[k].Fits(memory, store)
  {}

  lemma OnlyCopy(e: Env, p: Plan, i: nat, a: nat)
    requires CopiesFromPieces(e, p) && i < |p.dst| && p.dst[i].base <= a < p.dst[i].base + p.dst[i].len
    ensures |p.src| == |p.dst| && p.src[i].len == p.dst[i].len && p.dst[i].off == 0 && Stores(p.dst[i], a)
    ensures forall j :: 0 <= j < |p.dst| && j != i ==> !Stores(p.dst[j], a)
  {
    forall j | 0 <= j < |p.dst| ensures p.dst[j].off == 0 && (j != i ==> !Stores(p.dst[j], a)) {
      assert IntoCaller(e, p.src[j], p.dst[j]);
      if j < i {
        assert Disjoint(p.dst[j].base, p.dst[j].len, p.dst[i].base, p.dst[i].len);
      } else if i < j {
        assert Disjoint(p.dst[i].base, p.dst[i].len, p.dst[j].base, p.dst[j].len);
      }
    }
  }

  // Memory nothing touches keeps its bytes.
  lemma ClearKept(e: Env, p: Plan, mem: seq<byte>, store: seq<byte>, a: nat)
    requires Runs(p, |mem|, |store|) && CopiesFromPieces(e, p) && a < |mem| && Clear(p, a, 1)
    ensures ReadOut(p, mem, store)[a] == mem[a]
  {
    forall k | 0 <= k < |p.aligned| ensures !Fills(p.aligned[k], a) {
      assert Disjoint(p.aligned[k].base, p.aligned[k].len, a, 1);
    }
    ReadMisses(p.aligned, mem, store, a);
    forall i | 0 <= i < |p.dst| ensures !Stores(p.dst[i], a) {
      assert IntoCaller(e, p.src[i], p.dst[i]) && Disjoint(p.dst[i].base, p.dst[i].len, a, 1);
    }
    CopyMisses(p.src, p.dst, ReadAll(p.aligned, mem, store), a);
  }

  // ----- one more piece, one more copy -----

  lemma PieceKeeps(e: Env, p: Plan, v: Iovec, brk: nat, cap: nat)
    requires e.ps > 0 && ReadPlan(e, p, cap) && p.brk <= brk && PieceFits(e, v, brk, cap) && Clear(p, v.base, v.len)
    ensures ReadPlan(e, p.(aligned := p.aligned + [v], brk := brk), cap)
  {
    var q := p.(aligned := p.aligned + [v], brk := brk);
    forall k | 0 <= k < |q.aligned| ensures PieceFits(e, q.aligned[k], brk, cap) {
      assert k < |p.aligned| ==> PieceFits(e, p.aligned[k], p.brk, cap);
    }
    forall i | 0 <= i < |q.src| ensures FromPiece(q.aligned, q.src[i]) {
      var k: nat :| OutOf(p.aligned, p.src[i], k);
      assert OutOf(q.aligned, q.src[i], k);
    }
  }

  lemma CopyKeeps(e: Env, p: Plan, s: Iovec, d: Iovec, cap: nat)
    requires e.ps > 0 && ReadPlan(e, p, cap) && FromPiece(p.aligned, s) && IntoCaller(e, s, d) && Clear(p, d.base, d.len)
    ensures ReadPlan(e, p.(src := p.src + [s], dst := p.dst + [d]), cap)
  {
    hide PiecesFit;
    var q := p.(src := p.src + [s], dst := p.dst + [d]);
    forall i | 0 <= i < |q.dst| ensures IntoCaller(e, q.src[i], q.dst[i]) && FromPiece(q.aligned, q.src[i]) {
      assert i < |p.dst| ==> IntoCaller(e, p.src[i], p.dst[i]) && FromPiece(p.aligned, p.src[i]);
    }
    forall i, k | 0 <= i < |q.dst| && 0 <= k < |q.aligned|
      ensures Disjoint(q.dst[i].base, q.dst[i].len, q.aligned[k].base, q.aligned[k].len)
    {
      assert Disjoint(p.aligned[k].base, p.aligned[k].len, d.base, d.len);
    }
    SamePieces(e, p, q, cap);
  }

  lemma SamePieces(e: Env, p: Plan, q: Plan, cap: nat)
    requires e.ps > 0 && PiecesFit(e, p, cap) && q.aligned == p.aligned && q.brk == p.brk
    ensures PiecesFit(e, q, cap)
  {}

  // The `len` bytes at `off` arrive at `base`.
  ghost predicate Arrives(q: Plan, off: nat, len: nat, base: nat)
    requires |q.src| == |q.dst|
  {
    forall a, x {:trigger Carries(q, a, x)} :: base <= a < base + len && x == off + (a - base) ==> Carries(q, a, x)
  }

  // `q` is `p` with the `len` bytes at `off` read to `base` and nothing else.
  ghost predicate Adds(e: Env, p: Plan, q: Plan, off: nat, len: nat, base: nat) {
    && p.aligned <= q.aligned && p.src <= q.src && p.dst <= q.dst && p.rbw == q.rbw
    && |q.src| == |q.dst|
    && Arrives(q, off, len, base)
    && (forall b: nat, n: nat :: b + n <= e.top && Clear(p, b, n) && Disjoint(base, len, b, n) ==> Clear(q, b, n))
  }

  lemma CarriesStays(p: Plan, q: Plan, a: int, x: int)
    requires p.aligned <= q.aligned && p.src <= q.src && p.dst <= q.dst && |p.src| == |p.dst| && |q.src| == |q.dst|
    requires Carries(p, a, x)
    ensures Carries(q, a, x)
  {
    if ByPiece(p, a, x) {
      var k :| 0 <= k < |p.aligned| && PieceCarries(p.aligned[k], a, x);
      assert PieceCarries(q.aligned[k], a, x);
    } else {
      var i, k: nat :| 0 <= i < |p.dst| && CopyCarries(p.aligned, p.src[i], p.dst[i], k, a, x);
      assert CopyCarries(q.aligned, q.src[i], q.dst[i], k, a, x);
    }
  }

  lemma AddsNothing(e: Env, p: Plan, off: nat, base: nat)
    requires |p.src| == |p.dst|
    ensures Adds(e, p, p, off, 0, base)
  {}

  lemma AddsJoin(e: Env, p: Plan, q: Plan, r: Plan, off: nat, n: nat, len: nat, base: nat)
    requires n <= len && Adds(e, p, q, off, n, base) && Adds(e, q, r, off + n, len - n, base + n)
    ensures Adds(e, p, r, off, len, base)
  {
    hide Carries, Clear;
    forall a, x | base <= a < base + len && x == off + (a - base) ensures Carries(r, a, x) {
      if a < base + n {
        CarriesStays(q, r, a, x);
      }
    }
  }

  lemma ClearPart(p: Plan, b: nat, n: nat, b': nat, n': nat)
    requires Clear(p, b, n) && b <= b' && b' + n' <= b + n
    ensures Clear(p, b', n')
  {}

  // What is left of a buffer is still clear after its first part.
  lemma ClearRest(e: Env, p: Plan, q: Plan, off: nat, n: nat, base: nat, len: nat)
    requires Adds(e, p, q, off, n, base) && n <= len && Clear(p, base, len) && base + len <= e.top
    ensures Clear(q, base + n, len - n)
  {
    ClearPart(p, base, len, base + n, len - n);
    assert Disjoint(base, n, base + n, len - n);
  }

  // ----- one partial page -----

  lemma PartialShape(e: Env, p: Plan, off: nat, len: nat, base: nat)
    requires e.ps > 0 && !e.isWrite
    ensures var q, page, b := AddPartial(e, p, off, len, base), PageOf(off, e.ps), ScratchBase(p, PageOf(off, e.ps));
            var w := if SharesPage(p, page) then p else p.(aligned := p.aligned + [Iovec(page, e.ps, b)], brk := p.brk + e.ps);
            && q.aligned == w.aligned && q.brk == w.brk && q.rbw == p.rbw
            && q.src == w.src + [Iovec(off - page, len, b)] && q.dst == w.dst + [Iovec(0, len, base)]
  {}

  // The page a partial range needs is there: the last piece, whatever memory it is in, or a new one.
  lemma PageThere(e: Env, p: Plan, page: nat, cap: nat)
    requires ValidEnv(e) && ReadPlan(e, p, cap) && Aligned(page, e.ps) && page + e.ps <= cap
    ensures var b := ScratchBase(p, page);
            var w := if SharesPage(p, page) then p else p.(aligned := p.aligned + [Iovec(page, e.ps, b)], brk := p.brk + e.ps);
            && ReadPlan(e, w, cap) && w.aligned != []
            && w.aligned[|w.aligned| - 1].off == page && w.aligned[|w.aligned| - 1].base == b
            && e.ps <= w.aligned[|w.aligned| - 1].len
  {
    if SharesPage(p, page) {
      var l := p.aligned[|p.aligned| - 1];
      assert PieceFits(e, l, p.brk, cap);
      PagesApart(0, l.len, e.ps);
    } else {
      var v := Iovec(page, e.ps, p.brk);
      Quotient(e.ps, 1, 0, e.ps);
      ScratchClear(e, p, cap);
      PieceKeeps(e, p, v, p.brk + e.ps, cap);
    }
  }

  lemma ScratchClear(e: Env, p: Plan, cap: nat)
    requires e.ps > 0 && ReadPlan(e, p, cap)
    ensures Clear(p, p.brk, e.ps)
  {
    forall k | 0 <= k < |p.aligned| ensures Disjoint(p.aligned[k].base, p.aligned[k].len, p.brk, e.ps) {
      assert PieceFits(e, p.aligned[k], p.brk, cap);
    }
    forall i | 0 <= i < |p.dst| ensures Disjoint(p.dst[i].base, p.dst[i].len, p.brk, e.ps) {
      assert IntoCaller(e, p.src[i], p.dst[i]);
    }
  }

  lemma PageFits(e: Env, off: nat, cap: nat)
    requires ValidEnv(e) && off < cap && Aligned(cap, e.ps)
    ensures PageOf(off, e.ps) + e.ps <= cap
  {
    PagesApart(PageOf(off, e.ps), cap, e.ps);
  }

  lemma PartialReads(e: Env, p: Plan, off: nat, len: nat, base: nat, cap: nat)
    requires ValidEnv(e) && !e.isWrite && ReadPlan(e, p, cap) && InOnePage(e, off, len) && base + len <= e.top
    requires Aligned(cap, e.ps) && off + len <= cap && Clear(p, base, len)
    ensures ReadPlan(e, AddPartial(e, p, off, len, base), cap)
    ensures Adds(e, p, AddPartial(e, p, off, len, base), off, len, base)
  {
    hide AddPartial, ReadPlan, Clear, Adds;
    var q, page, b := AddPartial(e, p, off, len, base), PageOf(off, e.ps), ScratchBase(p, PageOf(off, e.ps));
    PartialShape(e, p, off, len, base);
    PageFits(e, off, cap);
    PageThere(e, p, page, cap);
    var v := Iovec(page, e.ps, b);
    var w := if SharesPage(p, page) then p else p.(aligned := p.aligned + [v], brk := p.brk + e.ps);
    var s, d := Iovec(off - page, len, b), Iovec(0, len, base);
    assert OutOf(w.aligned, s, |w.aligned| - 1);
    ScratchAbove(e, p, cap);
    if !SharesPage(p, page) {
      PageKeepsClear(e, p, w, v, base, len);
    }
    CopyKeeps(e, w, s, d, cap);
    var q' := w.(src := w.src + [s], dst := w.dst + [d]);
    SamePlan(e, q', q, cap);
    LastCopyAdds(e, p, w, q, s, d, off);
  }

  lemma SamePlan(e: Env, p: Plan, q: Plan, cap: nat)
    requires e.ps > 0 && ReadPlan(e, p, cap)
    requires q.aligned == p.aligned && q.src == p.src && q.dst == p.dst && q.brk == p.brk
    ensures ReadPlan(e, q, cap) && |q.src| == |q.dst|
  {}

  lemma ScratchAbove(e: Env, p: Plan, cap: nat)
    requires e.ps > 0 && ReadPlan(e, p, cap)
    ensures e.top <= p.brk && |p.src| == |p.dst|
  {}

  // A new scratch page is out of the caller's way.
  lemma PageKeepsClear(e: Env, p: Plan, w: Plan, v: Iovec, b: nat, n: nat)
    requires Clear(p, b, n) && b + n <= e.top <= v.base && w.dst == p.dst
    requires w.aligned == p.aligned || w.aligned == p.aligned + [v]
    ensures Clear(w, b, n)
  {}

  // With the copy added, the range is carried, and nothing but its buffer is used.
  lemma LastCopyAdds(e: Env, p: Plan, w: Plan, q: Plan, s: Iovec, d: Iovec, off: nat)
    requires |p.src| == |p.dst| && p.src == w.src && p.dst == w.dst && w.rbw == p.rbw == q.rbw
    requires q.aligned == w.aligned && q.src == w.src + [s] && q.dst == w.dst + [d] && d.off == 0 && d.len == s.len
    requires w.aligned == p.aligned || exists v :: w.aligned == p.aligned + [v] && e.top <= v.base
    requires w.aligned != [] && OutOf(w.aligned, s, |w.aligned| - 1) && w.aligned[|w.aligned| - 1].off + s.off == off
    ensures Adds(e, p, q, off, d.len, d.base)
  {
    forall a, x | d.base <= a < d.base + d.len && x == off + (a - d.base) ensures Carries(q, a, x) {
      assert CopyCarries(q.aligned, q.src[|p.src|], q.dst[|p.dst|], |w.aligned| - 1, a, x);
    }
    forall b: nat, n: nat | b + n <= e.top && Clear(p, b, n) && Disjoint(d.base, d.len, b, n) ensures Clear(q, b, n) {
      forall k | 0 <= k < |q.aligned| ensures Disjoint(q.aligned[k].base, q.aligned[k].len, b, n) {
        assert k < |p.aligned| ==> Disjoint(p.aligned[k].base, p.aligned[k].len, b, n);
      }
    }
  }

  // ----- whole pages -----

  lemma PieceReads(e: Env, p: Plan, v: Iovec, cap: nat)
    requires ValidEnv(e) && ReadPlan(e, p, cap) && WholePages(e, v) && 0 < v.len <= e.max
    requires v.End() <= cap && Clear(p, v.base, v.len)
    ensures ReadPlan(e, AddPiece(p, v), cap) && Adds(e, p, AddPiece(p, v), v.off, v.len, v.base)
  {
    var q := AddPiece(p, v);
    ScratchAbove(e, p, cap);
    PieceKeeps(e, p, v, p.brk, cap);
    forall a, x | v.base <= a < v.base + v.len && x == v.off + (a - v.base) ensures Carries(q, a, x) {
      assert PieceCarries(q.aligned[|p.aligned|], a, x);
    }
    forall b: nat, n: nat | b + n <= e.top && Clear(p, b, n) && Disjoint(v.base, v.len, b, n) ensures Clear(q, b, n) {
      forall k | 0 <= k < |q.aligned| ensures Disjoint(q.aligned[k].base, q.aligned[k].len, b, n) {
        assert k < |p.aligned| ==> Disjoint(p.aligned[k].base, p.aligned[k].len, b, n);
      }
    }
  }

  lemma {:induction false} CloneReads(e: Env, p: Plan, v: Iovec, cap: nat)
    requires ValidEnv(e) && ReadPlan(e, p, cap) && WholePages(e, v) && v.End() <= cap && Clear(p, v.base, v.len)
    ensures ReadPlan(e, AddClone(e, p, v), cap) && Adds(e, p, AddClone(e, p, v), v.off, v.len, v.base)
    decreases v.len
  {
    hide ReadPlan, AddClone, Adds, Clear;
    if v.len == 0 {
      CloneOfNothing(e, p, v);
      ScratchAbove(e, p, cap);
      AddsNothing(e, p, v.off, v.base);
    } else {
      var n := if v.len <= e.max then v.len else e.max;
      var c, rest := Iovec(v.off, n, v.base), Iovec(v.off + n, v.len - n, v.base + n);
      ChunkStep(e, p, v);
      ClearPart(p, v.base, v.len, v.base, n);
      PieceReads(e, p, c, cap);
      ClearRest(e, p, AddPiece(p, c), v.off, n, v.base, v.len);
      CloneReads(e, AddPiece(p, c), rest, cap);
      AddsJoin(e, p, AddPiece(p, c), AddClone(e, p, v), v.off, n, v.len, v.base);
    }
  }

  // ----- byte ranges -----

  lemma HeadReads(e: Env, p: Plan, r: Iovec, first: nat, cap: nat)
    requires ValidEnv(e) && !e.isWrite && ReadPlan(e, p, cap) && r.base + r.len <= e.top
    requires r.off <= first <= r.End() <= cap && (r.off < first ==> InOnePage(e, r.off, first - r.off))
    requires Aligned(cap, e.ps) && Clear(p, r.base, r.len)
    ensures ReadPlan(e, AddHead(e, p, r, first), cap)
    ensures Adds(e, p, AddHead(e, p, r, first), r.off, first - r.off, r.base)
  {
    hide ReadPlan, AddPartial, Adds, Clear;
    if r.off < first {
      ClearPart(p, r.base, r.len, r.base, first - r.off);
      PartialReads(e, p, r.off, first - r.off, r.base, cap);
    } else {
      ScratchAbove(e, p, cap);
      AddsNothing(e, p, r.off, r.base);
    }
  }

  lemma TailReads(e: Env, p: Plan, r: Iovec, last: nat, cap: nat)
    requires ValidEnv(e) && !e.isWrite && ReadPlan(e, p, cap) && r.base + r.len <= e.top
    requires r.off <= last <= r.End() <= cap && (last < r.End() ==> InOnePage(e, last, r.End() - last))
    requires Aligned(cap, e.ps) && Clear(p, r.base + (last - r.off), r.End() - last)
    ensures ReadPlan(e, AddTail(e, p, r, last), cap)
    ensures Adds(e, p, AddTail(e, p, r, last), last, r.End() - last, r.base + (last - r.off))
  {
    hide ReadPlan, AddPartial, Adds, Clear;
    if last < r.End() {
      PartialReads(e, p, last, r.End() - last, r.base + (last - r.off), cap);
    } else {
      ScratchAbove(e, p, cap);
      AddsNothing(e, p, last, r.base + (last - r.off));
    }
  }

  lemma ThreePartsRead(e: Env, p: Plan, r: Iovec, first: nat, last: nat, cap: nat)
    requires ValidEnv(e) && !e.isWrite && ReadPlan(e, p, cap) && r.base + r.len <= e.top && r.End() <= cap
    requires r.off <= first <= last <= r.End() && (r.off < first ==> InOnePage(e, r.off, first - r.off))
    requires WholePages(e, Body(r, first, last)) && (last < r.End() ==> InOnePage(e, last, r.End() - last))
    requires Aligned(cap, e.ps) && Clear(p, r.base, r.len)
    ensures var q := AddTail(e, AddClone(e, AddHead(e, p, r, first), Body(r, first, last)), r, last);
            ReadPlan(e, q, cap) && Adds(e, p, q, r.off, r.len, r.base)
  {
    hide ReadPlan, AddHead, AddClone, AddTail, Adds, Clear;
    var h, b := AddHead(e, p, r, first), Body(r, first, last);
    var m := AddClone(e, h, b);
    HeadReads(e, p, r, first, cap);
    ClearRest(e, p, h, r.off, first - r.off, r.base, r.len);
    ClearPart(h, r.base + (first - r.off), r.len - (first - r.off), b.base, b.len);
    CloneReads(e, h, b, cap);
    AddsJoin(e, p, h, m, r.off, first - r.off, last - r.off, r.base);
    ClearRest(e, p, m, r.off, last - r.off, r.base, r.len);
    TailReads(e, m, r, last, cap);
    AddsJoin(e, p, m, AddTail(e, m, r, last), r.off, last - r.off, r.len, r.base);
  }

  lemma RangeReads(e: Env, p: Plan, r: Iovec, cap: nat)
    requires ValidEnv(e) && !e.isWrite && ReadPlan(e, p, cap) && r.base + r.len <= e.top && r.End() <= cap
    requires Aligned(cap, e.ps) && Clear(p, r.base, r.len)
    ensures ReadPlan(e, AddRange(e, p, r), cap) && Adds(e, p, AddRange(e, p, r), r.off, r.len, r.base)
  {
    hide ReadPlan, AddPartial, AddHead, AddClone, AddTail, Adds, Clear, InOnePage, WholePages, CutOf;
    if r.len == 0 {
      ScratchAbove(e, p, cap);
      AddsNothing(e, p, r.off, r.base);
    } else {
      CutFits(e, r);
      match CutOf(e, r)
      case OnePage => PartialReads(e, p, r.off, r.len, r.base, cap);
      case ThreeParts(first, last) => ThreePartsRead(e, p, r, first, last, cap);
    }
  }

  // ----- whole vectors -----

  ghost predicate BuffersDisjoint(v: seq<Iovec>) {
    forall j, k :: 0 <= j < k < |v| ==> Disjoint(v[j].base, v[j].len, v[k].base, v[k].len)
  }

  ghost predicate AllCarried(v: seq<Iovec>, p: Plan) {
    |p.src| == |p.dst| && forall k :: 0 <= k < |v| ==> Arrives(p, v[k].off, v[k].len, v[k].base)
  }

  // Memory outside the buffers is clear.
  ghost predicate RestClear(e: Env, v: seq<Iovec>, p: Plan) {
    forall b: nat, n: nat ::
      b + n <= e.top && (forall k :: 0 <= k < |v| ==> Disjoint(v[k].base, v[k].len, b, n)) ==> Clear(p, b, n)
  }

  // For any ranges within the store with disjoint buffers, in any order, overlapping or not.
  lemma {:induction false} AlignReads(e: Env, v: seq<Iovec>, cap: nat)
    requires ValidEnv(e) && !e.isWrite && Aligned(cap, e.ps) && BuffersDisjoint(v)
    requires forall k :: 0 <= k < |v| ==> v[k].Fits(e.top, cap)
    ensures ReadPlan(e, Align(e, v), cap) && Align(e, v).rbw == []
    ensures AllCarried(v, Align(e, v)) && RestClear(e, v, Align(e, v))
  {
    if v != [] {
      var init, r := v[..|v| - 1], v[|v| - 1];
      var p, q := Align(e, init), Align(e, v);
      assert forall k :: 0 <= k < |init| ==> init[k] == v[k];
      AlignReads(e, init, cap);
      BufferClear(e, init, r, p);
      RangeReads(e, p, r, cap);
      assert v == init + [r];
      CarriedSnoc(e, init, r, p, q);
      RestClearSnoc(e, init, r, p, q);
      AddsSameReads(e, p, q, r.off, r.len, r.base);
    }
  }

  lemma AddsSameReads(e: Env, p: Plan, q: Plan, off: nat, len: nat, base: nat)
    requires Adds(e, p, q, off, len, base)
    ensures q.rbw == p.rbw
  {}

  lemma BufferClear(e: Env, v: seq<Iovec>, r: Iovec, p: Plan)
    requires RestClear(e, v, p) && r.base + r.len <= e.top && BuffersDisjoint(v + [r])
    ensures Clear(p, r.base, r.len)
  {
    var w := v + [r];
    forall k | 0 <= k < |v| ensures Disjoint(v[k].base, v[k].len, r.base, r.len) {
      assert w[k] == v[k] && w[|v|] == r;
    }
  }

  lemma ArrivesStays(p: Plan, q: Plan, off: nat, len: nat, base: nat)
    requires p.aligned <= q.aligned && p.src <= q.src && p.dst <= q.dst && |p.src| == |p.dst| && |q.src| == |q.dst|
    requires Arrives(p, off, len, base)
    ensures Arrives(q, off, len, base)
  {
    hide Carries;
    forall a, x | base <= a < base + len && x == off + (a - base) ensures Carries(q, a, x) {
      CarriesStays(p, q, a, x);
    }
  }

  lemma CarriedSnoc(e: Env, v: seq<Iovec>, r: Iovec, p: Plan, q: Plan)
    requires AllCarried(v, p) && Adds(e, p, q, r.off, r.len, r.base)
    ensures AllCarried(v + [r], q)
  {
    var w := v + [r];
    forall k | 0 <= k < |w| ensures Arrives(q, w[k].off, w[k].len, w[k].base) {
      if k < |v| {
        assert w[k] == v[k];
        ArrivesStays(p, q, w[k].off, w[k].len, w[k].base);
      }
    }
  }

  lemma RestClearSnoc(e: Env, v: seq<Iovec>, r: Iovec, p: Plan, q: Plan)
    requires RestClear(e, v, p) && Adds(e, p, q, r.off, r.len, r.base)
    ensures RestClear(e, v + [r], q)
  {
    hide Clear, Carries;
    var w := v + [r];
    forall b: nat, n: nat | b + n <= e.top && (forall k :: 0 <= k < |w| ==> Disjoint(w[k].base, w[k].len, b, n))
      ensures Clear(q, b, n)
    {
      assert forall k :: 0 <= k < |v| ==> v[k] == w[k];
      assert Disjoint(w[|v|].base, w[|v|].len, b, n);
      assert Clear(p, b, n);
    }
  }

  // What a read promises: every buffer holds the bytes of its range, and the rest of the caller's
  // memory is untouched.
  ghost predicate Gathered(v: seq<Iovec>, top: nat, store: seq<byte>, m: seq<byte>, m': seq<byte>)
    requires top <= |m| && AllFit(v, top, |store|)
  {
    && |m'| == |m|
    && (forall k, a :: 0 <= k < |v| && Fills(v[k], a) ==> m'[a] == store[v[k].off + (a - v[k].base)])
    && (forall a :: 0 <= a < top && (forall k :: 0 <= k < |v| ==> !Fills(v[k], a)) ==> m'[a] == m[a])
  }

  lemma CarriedArrives(e: Env, p: Plan, cap: nat, mem: seq<byte>, store: seq<byte>, a: nat, x: nat)
    requires e.ps > 0 && ReadPlan(e, p, cap) && Runs(p, |mem|, |store|) && a < |mem|
    requires |p.src| == |p.dst| && Carries(p, a, x)
    ensures x < |store| && ReadOut(p, mem, store)[a] == store[x]
  {
    hide ReadPlan, Runs, ReadOut, ByPiece, ByCopy;
    if ByPiece(p, a, x) {
      CarriedByPiece(e, p, cap, mem, store, a, x);
    } else {
      CarriedByCopy(e, p, cap, mem, store, a, x);
    }
  }

  // The read carried out in full, for any vector of ranges with disjoint buffers.
  lemma AlignedReadGathers(e: Env, v: seq<Iovec>, mem: seq<byte>, store: seq<byte>)
    requires ValidEnv(e) && !e.isWrite && Holds(e, v, mem, store) && BuffersDisjoint(v)
    ensures Runs(Align(e, v), |mem|, |store|)
    ensures AllFit(v, e.top, |store|)
    ensures Gathered(v, e.top, store, mem, ReadOut(Align(e, v), mem, store))
  {
    hide ReadPlan, Runs, ReadOut, Align, Carries, Clear, CopiesFromPieces;
    var p := Align(e, v);
    AlignReads(e, v, |store|);
    PlanRuns(e, p, |store|, mem, store);
    var m' := ReadOut(p, mem, store);
    forall k, a | 0 <= k < |v| && Fills(v[k], a) ensures m'[a] == store[v[k].off + (a - v[k].base)] {
      assert v[k].Fits(e.top, |store|) && Arrives(p, v[k].off, v[k].len, v[k].base);
      CarriedArrives(e, p, |store|, mem, store, a, v[k].off + (a - v[k].base));
    }
    forall a | 0 <= a < e.top && (forall k :: 0 <= k < |v| ==> !Fills(v[k], a)) ensures m'[a] == mem[a] {
      forall k | 0 <= k < |v| ensures Disjoint(v[k].base, v[k].len, a, 1) {
        assert !Fills(v[k], a);
      }
      assert Clear(p, a, 1);
      PlanCopies(e, p, |store|);
      ClearKept(e, p, mem, store, a);
    }
  }

  lemma GatheredByPermutation(v: seq<Iovec>, w: seq<Iovec>, top: nat, store: seq<byte>, m: seq<byte>, m': seq<byte>)
    requires multiset(v) == multiset(w) && top <= |m| && AllFit(v, top, |store|) && Gathered(v, top, store, m, m')
    ensures AllFit(w, top, |store|) && Gathered(w, top, store, m, m')
  {
    forall j | 0 <= j < |w|
      ensures w[j].Fits(top, |store|)
      ensures forall a :: Fills(w[j], a) ==> m'[a] == store[w[j].off + (a - w[j].base)]
    {
      assert w[j] in multiset(w) && w[j] in multiset(v);
      var k :| 0 <= k < |v| && v[k] == w[j];
      assert v[k].Fits(top, |store|);
    }
    forall a | 0 <= a < top && (forall j :: 0 <= j < |w| ==> !Fills(w[j], a)) ensures m'[a] == m[a] {
      forall k | 0 <= k < |v| ensures !Fills(v[k], a) {
        assert v[k] in multiset(v) && v[k] in multiset(w);
        var j :| 0 <= j < |w| && w[j] == v[k];
      }
    }
  }
}
