// Dropping the read of a page that the data copies overwrite completely
// (motr_obj_read_before_write_optimise) does not change what is written.
module ReadElision {
  import opened Transfers
  import opened Paging
  import opened Alignment
  import opened WriteRefinement

  predicate OnPage(d: Iovec, base: nat, i: int) {
    d.base == base && d.off <= i < d.off + d.len
  }

  ghost predicate CoveredAt(dst: seq<Iovec>, base: nat, i: int) {
    exists d :: 0 <= d < |dst| && OnPage(dst[d], base, i)
  }

  // The copies into the scratch page at `base` overwrite all of it.
  ghost predicate PageCovered(dst: seq<Iovec>, base: nat, ps: nat) {
    forall i :: 0 <= i < ps ==> CoveredAt(dst, base, i)
  }

  // The scan gives up for good at the first page whose first byte is not overwritten.
  ghost predicate Reached(rbw: seq<Iovec>, dst: seq<Iovec>, i: int)
    requires i < |rbw|
  {
    forall j :: 0 <= j <= i ==> CoveredAt(dst, rbw[j].base, 0)
  }

  ghost predicate Elidable(rbw: seq<Iovec>, dst: seq<Iovec>, ps: nat, i: int)
    requires 0 <= i < |rbw|
  {
    Reached(rbw, dst, i) && PageCovered(dst, rbw[i].base, ps)
  }

  // The reads left after the scan: an elided one keeps its place with offset and length 0.
  ghost function Elide(rbw: seq<Iovec>, dst: seq<Iovec>, ps: nat): (r: seq<Iovec>)
    ensures |r| == |rbw|
    ensures forall i :: 0 <= i < |rbw| ==>
              r[i] == if Elidable(rbw, dst, ps, i) then Iovec(0, 0, rbw[i].base) else rbw[i]
  {
    seq(|rbw|, i requires 0 <= i < |rbw| =>
      if Elidable(rbw, dst, ps, i) then Iovec(0, 0, rbw[i].base) else rbw[i])
  }

  function WithReads(p: Plan, rbw: seq<Iovec>): Plan {
    p.(rbw := rbw)
  }

  lemma ElideFits(p: Plan, ps: nat, memory: nat, store: nat)
    requires Runs(p, memory, store)
    ensures AllFit(Elide(p.rbw, p.dst, ps), memory, store)
    ensures Runs(WithReads(p, Elide(p.rbw, p.dst, ps)), memory, store)
  {}

  // Each address lies on at most one page to fetch.
  lemma FetchedOnce(e: Env, p: Plan, hi: nat, j: nat, k: nat, a: nat)
    requires ValidEnv(e) && Inv(e, p, hi) && j < |p.rbw| && k < |p.rbw| && j != k
    requires Fills(p.rbw[k], a)
    ensures !Fills(p.rbw[j], a)
  {}

  // Fetching fewer pages gives an address the same value unless it lies on an elided page.
  lemma FetchAgrees(e: Env, p: Plan, mem: seq<byte>, store: seq<byte>, hi: nat, a: nat)
    requires ValidEnv(e) && Inv(e, p, hi) && Runs(p, |mem|, |store|) && a < |mem|
    requires forall i :: 0 <= i < |p.rbw| && Fills(p.rbw[i], a) ==> !Elidable(p.rbw, p.dst, e.ps, i)
    ensures AllFit(Elide(p.rbw, p.dst, e.ps), |mem|, |store|)
    ensures ReadAll(Elide(p.rbw, p.dst, e.ps), mem, store)[a] == ReadAll(p.rbw, mem, store)[a]
  {
    hide Elidable, Inv;
    var r := Elide(p.rbw, p.dst, e.ps);
    ElideFits(p, e.ps, |mem|, |store|);
    if k :| 0 <= k < |p.rbw| && Fills(p.rbw[k], a) {
      assert r[k] == p.rbw[k];
      forall j | 0 <= j < |p.rbw| && j != k ensures !Fills(p.rbw[j], a) && !Fills(r[j], a) {
        FetchedOnce(e, p, hi, j, k, a);
      }
      ReadHits(r, mem, store, k, a);
      ReadHits(p.rbw, mem, store, k, a);
    } else {
      forall j | 0 <= j < |p.rbw| ensures !Fills(r[j], a) {
        assert !Fills(p.rbw[j], a);
      }
      ReadMisses(r, mem, store, a);
      ReadMisses(p.rbw, mem, store, a);
    }
  }

  // Soundness: after the data copies memory is the same with the dropped reads as without.
  lemma ElisionSound(e: Env, p: Plan, mem: seq<byte>, store: seq<byte>, hi: nat)
    requires ValidEnv(e) && e.isWrite && Inv(e, p, hi) && Room(e, p, mem, store, hi) && Runs(p, |mem|, |store|)
    ensures Runs(WithReads(p, Elide(p.rbw, p.dst, e.ps)), |mem|, |store|)
    ensures Overlaid(WithReads(p, Elide(p.rbw, p.dst, e.ps)), mem, store) == Overlaid(p, mem, store)
  {
    hide PiecesOk, ScratchOk, CopiesOk;
    var r := Elide(p.rbw, p.dst, e.ps);
    ElideFits(p, e.ps, |mem|, |store|);
    InvRuns(e, p, mem, store, hi);
    var m, m' := ReadAll(r, mem, store), Fetched(p, mem, store);
    forall b | 0 <= b < e.top ensures m[b] == m'[b] {
      NoFetchBelow(e, p, hi, b);
      FetchAgrees(e, p, mem, store, hi, b);
    }
    forall a | 0 <= a < |mem| ensures CopyAll(p.src, p.dst, m)[a] == CopyAll(p.src, p.dst, m')[a] {
      if i :| 0 <= i < |p.rbw| && Fills(p.rbw[i], a) && Elidable(p.rbw, p.dst, e.ps, i) {
        assert RbwOk(e, p.rbw[i], p.brk, hi);
        assert CoveredAt(p.dst, p.rbw[i].base, a - p.rbw[i].base);
        var d :| 0 <= d < |p.dst| && OnPage(p.dst[d], p.rbw[i].base, a - p.rbw[i].base);
        CopyAgrees(p.src, p.dst, m, m', e.top, a, d);
      } else {
        FetchAgrees(e, p, mem, store, hi, a);
        CopyAgrees(p.src, p.dst, m, m', e.top, a, 0);
      }
    }
    assert Overlaid(WithReads(p, r), mem, store) == CopyAll(p.src, p.dst, m);
  }

  lemma NoFetchBelow(e: Env, p: Plan, hi: nat, a: nat)
    requires ValidEnv(e) && Inv(e, p, hi) && a < e.top
    ensures forall i :: 0 <= i < |p.rbw| ==> !Fills(p.rbw[i], a)
  {}

  // ----- what the scan relies on -----

  ghost predicate ScanReady(rbw: seq<Iovec>, dst: seq<Iovec>, ps: nat) {
    && (forall d :: 0 <= d < |dst| ==> 0 < dst[d].len && dst[d].off + dst[d].len <= ps)
    && (forall c, d :: 0 <= c < d < |dst| ==> CopyBefore(dst[c], dst[d]))
    && (forall i, j :: 0 <= i < j < |rbw| ==> rbw[i].base < rbw[j].base)
    && (forall i :: 0 <= i < |rbw| ==> HasCopy(dst, rbw[i].base))
  }

  ghost predicate HasCopy(dst: seq<Iovec>, base: nat) {
    exists d :: 0 <= d < |dst| && dst[d].base == base
  }

  ghost predicate Served(p: Plan) {
    forall i :: 0 <= i < |p.rbw| ==> HasCopy(p.dst, p.rbw[i].base)
  }

  lemma HasCopySnoc(dst: seq<Iovec>, d: Iovec, base: nat)
    requires HasCopy(dst, base) || d.base == base
    ensures HasCopy(dst + [d], base)
  {
    var w := dst + [d];
    if HasCopy(dst, base) {
      var c :| 0 <= c < |dst| && dst[c].base == base;
      assert w[c].base == base;
    } else {
      assert w[|dst|] == d;
    }
  }

  // Every page to be read back has a data copy into it.
  lemma PartialServed(e: Env, p: Plan, off: nat, len: nat, base: nat)
    requires ValidEnv(e) && e.isWrite && Served(p)
    ensures Served(AddPartial(e, p, off, len, base))
  {
    var q, page := AddPartial(e, p, off, len, base), PageOf(off, e.ps);
    var d := Iovec(off - page, len, ScratchBase(p, page));
    assert q.dst == p.dst + [d];
    forall i | 0 <= i < |q.rbw| ensures HasCopy(q.dst, q.rbw[i].base) {
      HasCopySnoc(p.dst, d, q.rbw[i].base);
    }
  }

  lemma RangeServed(e: Env, p: Plan, r: Iovec)
    requires ValidEnv(e) && e.isWrite && Served(p)
    ensures Served(AddRange(e, p, r))
  {
    hide AddPartial, Served;
    if r.len == 0 {
    } else if CutOf(e, r).OnePage? {
      PartialServed(e, p, r.off, r.len, r.base);
    } else {
      var first, last := CutOf(e, r).first, CutOf(e, r).last;
      if r.off < first {
        PartialServed(e, p, r.off, first - r.off, r.base);
      }
      var h := AddHead(e, p, r, first);
      var m := AddClone(e, h, Body(r, first, last));
      SameCopiesServed(h, m);
      if last < r.End() {
        PartialServed(e, m, last, r.End() - last, r.base + (last - r.off));
      }
    }
  }

  lemma SameCopiesServed(p: Plan, q: Plan)
    requires Served(p) && q.dst == p.dst && q.rbw == p.rbw
    ensures Served(q)
  {}

  lemma {:induction false} AlignServed(e: Env, v: seq<Iovec>)
    requires ValidEnv(e) && e.isWrite
    ensures Served(Align(e, v))
  {
    if v != [] {
      AlignServed(e, v[..|v| - 1]);
      RangeServed(e, Align(e, v[..|v| - 1]), v[|v| - 1]);
    }
  }

  lemma AlignScanReady(e: Env, v: seq<Iovec>)
    requires ValidEnv(e) && e.isWrite && Sorted(e, v)
    ensures ScanReady(Align(e, v).rbw, Align(e, v).dst, e.ps)
  {
    var p := Align(e, v);
    AlignInv(e, v);
    AlignServed(e, v);
    forall d | 0 <= d < |p.dst| ensures 0 < p.dst[d].len && p.dst[d].off + p.dst[d].len <= e.ps {
      assert CopyOk(e, p.User(e)[d], p.Page(e)[d], p.brk);
    }
    forall c, d | 0 <= c < d < |p.dst| ensures CopyBefore(p.dst[c], p.dst[d]) {
      assert CopyBefore(p.Page(e)[c], p.Page(e)[d]);
    }
  }

  // The first copy into a page decides whether the page's first byte is overwritten.
  lemma FirstCopyDecides(dst: seq<Iovec>, ps: nat, base: nat, j: nat)
    requires ScanReady([], dst, ps) && j < |dst| && dst[j].base == base
    requires forall d :: 0 <= d < j ==> dst[d].base != base
    ensures CoveredAt(dst, base, 0) <==> dst[j].off == 0
  {}

  // A run of adjoining copies j .. k, ended by a gap, another page or the end of the list, leaves
  // the byte after it uncovered.
  lemma RunEnds(dst: seq<Iovec>, ps: nat, base: nat, j: nat, k: nat, len: nat)
    requires ScanReady([], dst, ps) && j < k <= |dst| && len == dst[k - 1].off + dst[k - 1].len
    requires dst[k - 1].base == base && forall d :: 0 <= d < j ==> dst[d].base != base
    requires k < |dst| ==> dst[k].base != base || dst[k].off > len
    ensures !CoveredAt(dst, base, len)
  {}
}
