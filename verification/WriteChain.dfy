// What a whole write does to the store, operation by operation: the reads before the write in
// batches, the data copies, and the pieces in batches. Only the first batch of pages to read back
// is launched as a READ; the driver launches every further batch as a WRITE, which stores zeroed
// scratch pages. This module derives the exact outcome.
module WriteChain {
  import opened Transfers
  import opened Paging
  import opened Alignment
  import opened Decomposition
  import opened WriteRefinement
  import opened ReadElision

  // ----- batches -----

  // How many entries of `v` one operation takes: as many as fit in `room` bytes.
  function BatchSize(v: seq<Iovec>, room: nat): (n: nat)
    ensures n <= |v|
  {
    if v == [] || v[0].len > room then 0 else 1 + BatchSize(v[1..], room - v[0].len)
  }

  function TotalLen(v: seq<Iovec>): nat {
    if v == [] then 0 else v[0].len + TotalLen(v[1..])
  }

  // The batch fits, and the next entry would not.
  lemma {:induction false} BatchIsGreedy(v: seq<Iovec>, room: nat)
    ensures var n := BatchSize(v, room);
            && TotalLen(v[..n]) <= room
            && (n < |v| ==> TotalLen(v[..n]) + v[n].len > room)
  {
    if v != [] && v[0].len <= room {
      var n := BatchSize(v[1..], room - v[0].len);
      BatchIsGreedy(v[1..], room - v[0].len);
      assert v[..n + 1] == [v[0]] + v[1..][..n];
      assert TotalLen(v[..n + 1]) == v[0].len + TotalLen(v[1..][..n]);
    }
  }

  lemma {:induction false} ShortListsFit(v: seq<Iovec>, each: nat, room: nat)
    requires forall k :: 0 <= k < |v| ==> v[k].len <= each
    requires |v| * each <= room
    ensures BatchSize(v, room) == |v|
  {
    if v != [] {
      Distributes(|v|, 1, each);
      assert forall k :: 0 <= k < |v[1..]| ==> v[1..][k] == v[k + 1];
      ShortListsFit(v[1..], each, room - v[0].len);
    }
  }

  // ----- the pages a late batch destroys -----

  ghost function ZeroedAt(v: seq<Iovec>, store: seq<byte>): (r: seq<byte>)
    ensures |r| == |store|
    ensures forall x :: 0 <= x < |store| ==> r[x] == if Covered(v, x) then 0 else store[x]
  {
    seq(|store|, x requires 0 <= x < |store| => if Covered(v, x) then 0 else store[x])
  }

  lemma {:induction false} WritingZeros(v: seq<Iovec>, mem: seq<byte>, store: seq<byte>)
    requires AllFit(v, |mem|, |store|)
    requires forall k, a :: 0 <= k < |v| && v[k].base <= a < v[k].base + v[k].len ==> mem[a] == 0
    ensures WriteAll(v, mem, store) == ZeroedAt(v, store)
  {
    if v == [] {
      assert forall x :: !Covered(v, x);
    } else {
      var init, l := v[..|v| - 1], v[|v| - 1];
      assert v == init + [l];
      WritingZeros(init, mem, store);
      WriteSnoc(init, l, mem, store);
      var w := WriteAll(v, mem, store);
      forall x | 0 <= x < |store| ensures w[x] == ZeroedAt(v, store)[x] {
        CoveredSnoc(init, l, x);
        if l.Covers(x) {
          assert v[|v| - 1].base <= l.base + (x - l.off) < v[|v| - 1].base + v[|v| - 1].len;
        }
      }
    }
  }

  // ----- the chain -----

  // Everything the reads before the write leave behind, when the first `b` of them are in the
  // first batch: the memory ...
  function MemoryRead(rbw: seq<Iovec>, b: nat, mem: seq<byte>, store: seq<byte>): (m: seq<byte>)
    requires b <= |rbw| && AllFit(rbw[..b], |mem|, |store|)
    ensures |m| == |mem|
  {
    ReadAll(rbw[..b], mem, store)
  }

  // ... and the store.
  function StoreAfterReads(rbw: seq<Iovec>, b: nat, mem: seq<byte>, store: seq<byte>): (s: seq<byte>)
    requires b <= |rbw| && AllFit(rbw[..b], |mem|, |store|) && AllFit(rbw[b..], |mem|, |store|)
    ensures |s| == |store|
  {
    WriteAll(rbw[b..], MemoryRead(rbw, b, mem, store), store)
  }

  // The state every write starts from: a sorted vector of disjoint ranges within the object, a
  // plan for it, and scratch memory.
  ghost predicate Ready(e: Env, v: seq<Iovec>, mem: seq<byte>, store: seq<byte>) {
    ValidEnv(e) && e.isWrite && Sorted(e, v) && Holds(e, v, mem, store) && ZeroPast(store, e.size)
  }

  ghost function Reads(e: Env, v: seq<Iovec>): (r: seq<Iovec>)
    requires ValidEnv(e)
  {
    Elide(Align(e, v).rbw, Align(e, v).dst, e.ps)
  }

  lemma FrontierFits(e: Env, v: seq<Iovec>, mem: seq<byte>, store: seq<byte>)
    requires ValidEnv(e) && Holds(e, v, mem, store)
    ensures Room(e, Align(e, v), mem, store, Frontier(v))
  {}

  lemma ReadyRuns(e: Env, v: seq<Iovec>, mem: seq<byte>, store: seq<byte>, b: nat)
    requires Ready(e, v, mem, store) && b <= |Reads(e, v)|
    ensures Inv(e, Align(e, v), Frontier(v)) && Room(e, Align(e, v), mem, store, Frontier(v))
    ensures Runs(Align(e, v), |mem|, |store|)
    ensures AllFit(Reads(e, v), |mem|, |store|)
    ensures AllFit(Reads(e, v)[..b], |mem|, |store|) && AllFit(Reads(e, v)[b..], |mem|, |store|)
  {
    AlignInv(e, v);
    FrontierFits(e, v, mem, store);
    InvRuns(e, Align(e, v), mem, store, Frontier(v));
    ElideFits(Align(e, v), e.ps, |mem|, |store|);
  }

  // The pages that are read stay distinct after elision.
  lemma ReadsApart(e: Env, v: seq<Iovec>, j: nat, k: nat)
    requires ValidEnv(e) && Sorted(e, v) && j < k < |Reads(e, v)|
    ensures var r := Reads(e, v);
            && (forall a :: Fills(r[j], a) ==> !Fills(r[k], a))
            && (forall x :: r[j].Covers(x) ==> !r[k].Covers(x))
  {
    var p := Align(e, v);
    AlignInv(e, v);
    assert RbwOk(e, p.rbw[j], p.brk, Frontier(v)) && RbwOk(e, p.rbw[k], p.brk, Frontier(v));
  }

  lemma ReadsInScratch(e: Env, v: seq<Iovec>, k: nat)
    requires ValidEnv(e) && Sorted(e, v) && k < |Reads(e, v)|
    ensures e.top <= Reads(e, v)[k].base
  {
    AlignInv(e, v);
    assert RbwOk(e, Align(e, v).rbw[k], Align(e, v).brk, Frontier(v));
  }

  // No two of the vectors fill the same address or cover the same offset.
  ghost predicate Apart(r: seq<Iovec>) {
    && (forall j, k, a :: 0 <= j < k < |r| && Fills(r[j], a) ==> !Fills(r[k], a))
    && (forall j, k, x :: 0 <= j < k < |r| && r[j].Covers(x) ==> !r[k].Covers(x))
  }

  lemma ReadsAreApart(e: Env, v: seq<Iovec>)
    requires ValidEnv(e) && Sorted(e, v)
    ensures Apart(Reads(e, v))
  {
    hide Reads, Sorted;
    var r := Reads(e, v);
    forall j, k | 0 <= j < k < |r|
      ensures forall a :: Fills(r[j], a) ==> !Fills(r[k], a)
      ensures forall x :: r[j].Covers(x) ==> !r[k].Covers(x)
    {
      ReadsApart(e, v, j, k);
    }
  }

  // Scratch pages of late batches are still zero when they are written out.
  lemma LateBatchesWriteZeros(e: Env, v: seq<Iovec>, mem: seq<byte>, store: seq<byte>, b: nat)
    requires Ready(e, v, mem, store) && b <= |Reads(e, v)|
    ensures AllFit(Reads(e, v)[..b], |mem|, |store|) && AllFit(Reads(e, v)[b..], |mem|, |store|)
    ensures StoreAfterReads(Reads(e, v), b, mem, store) == ZeroedAt(Reads(e, v)[b..], store)
  {
    hide Inv, Runs, Reads, Sorted, Align;
    var r := Reads(e, v);
    ReadyRuns(e, v, mem, store, b);
    ReadsAreApart(e, v);
    var late, m := r[b..], MemoryRead(r, b, mem, store);
    forall k, a | 0 <= k < |late| && late[k].base <= a < late[k].base + late[k].len ensures m[a] == 0 {
      assert late[k].Fits(|mem|, |store|) && Fills(r[b + k], a);
      ReadsInScratch(e, v, b + k);
      ReadMisses(r[..b], mem, store, a);
    }
    WritingZeros(late, m, store);
  }

  // Reading the first batch from the store is reading everything from the store the late batches
  // leave behind: they have zeroed what would have been read into pages that are zero anyway.
  lemma ReadingAfterDamage(e: Env, v: seq<Iovec>, mem: seq<byte>, store: seq<byte>, b: nat)
    requires Ready(e, v, mem, store) && b <= |Reads(e, v)|
    ensures AllFit(Reads(e, v), |mem|, |store|)
    ensures AllFit(Reads(e, v)[..b], |mem|, |store|)
    ensures MemoryRead(Reads(e, v), b, mem, store) ==
            ReadAll(Reads(e, v), mem, ZeroedAt(Reads(e, v)[b..], store))
  {
    hide Inv, Runs, Reads;
    var r := Reads(e, v);
    ReadyRuns(e, v, mem, store, b);
    var s := ZeroedAt(r[b..], store);
    forall a | 0 <= a < |mem| ensures MemoryRead(r, b, mem, store)[a] == ReadAll(r, mem, s)[a] {
      DamagedByte(e, v, mem, store, b, a);
    }
  }

  // An address filled by an early read, by a late one, or by none.
  lemma EarlyByte(r: seq<Iovec>, mem: seq<byte>, store: seq<byte>, b: nat, k: nat, a: nat)
    requires Apart(r) && k < b <= |r| && Fills(r[k], a) && a < |mem|
    requires AllFit(r, |mem|, |store|) && AllFit(r[..b], |mem|, |store|)
    ensures MemoryRead(r, b, mem, store)[a] == ReadAll(r, mem, ZeroedAt(r[b..], store))[a]
  {
    hide ReadAll, Covered;
    var x := r[k].off + (a - r[k].base);
    assert r[k].Fits(|mem|, |store|) && r[k].Covers(x);
    assert forall j :: 0 <= j < |r| && j != k ==> !Fills(r[j], a);
    LaterMiss(r, b, k, x);
    ReadHits(r, mem, ZeroedAt(r[b..], store), k, a);
    ReadHits(r[..b], mem, store, k, a);
  }

  lemma LaterMiss(r: seq<Iovec>, b: nat, k: nat, x: int)
    requires Apart(r) && k < b <= |r| && r[k].Covers(x)
    ensures !Covered(r[b..], x)
  {
    forall j | 0 <= j < |r[b..]| ensures !r[b..][j].Covers(x) {
      assert r[b..][j] == r[b + j];
    }
  }

  lemma LateByte(r: seq<Iovec>, mem: seq<byte>, store: seq<byte>, b: nat, k: nat, a: nat)
    requires Apart(r) && b <= k < |r| && Fills(r[k], a) && a < |mem| && mem[a] == 0
    requires AllFit(r, |mem|, |store|) && AllFit(r[..b], |mem|, |store|)
    ensures MemoryRead(r, b, mem, store)[a] == ReadAll(r, mem, ZeroedAt(r[b..], store))[a]
  {
    var x := r[k].off + (a - r[k].base);
    assert r[k].Fits(|mem|, |store|);
    assert forall j :: 0 <= j < |r| && j != k ==> !Fills(r[j], a);
    ReadHits(r, mem, ZeroedAt(r[b..], store), k, a);
    ReadMisses(r[..b], mem, store, a);
    assert r[b..][k - b].Covers(x);
  }

  lemma DamagedByte(e: Env, v: seq<Iovec>, mem: seq<byte>, store: seq<byte>, b: nat, a: nat)
    requires Ready(e, v, mem, store) && b <= |Reads(e, v)| && a < |mem|
    ensures AllFit(Reads(e, v), |mem|, |store|) && AllFit(Reads(e, v)[..b], |mem|, |store|)
    ensures MemoryRead(Reads(e, v), b, mem, store)[a] ==
            ReadAll(Reads(e, v), mem, ZeroedAt(Reads(e, v)[b..], store))[a]
  {
    hide Inv, Runs, Reads, Sorted, Apart, ZeroPast;
    var r := Reads(e, v);
    ReadyRuns(e, v, mem, store, b);
    ReadsAreApart(e, v);
    if k :| 0 <= k < |r| && Fills(r[k], a) {
      if k < b {
        EarlyByte(r, mem, store, b, k, a);
      } else {
        ReadsInScratch(e, v, k);
        LateByte(r, mem, store, b, k, a);
      }
    } else {
      ReadMisses(r, mem, ZeroedAt(r[b..], store), a);
      ReadMisses(r[..b], mem, store, a);
    }
  }

  // The store at the end of a complete chain.
  ghost function ChainResult(e: Env, v: seq<Iovec>, mem: seq<byte>, store: seq<byte>, b: nat): (s: seq<byte>)
    requires Ready(e, v, mem, store) && b <= |Reads(e, v)|
  {
    ReadyRuns(e, v, mem, store, b);
    var p, r := Align(e, v), Reads(e, v);
    WriteAll(p.aligned, CopyAll(p.src, p.dst, MemoryRead(r, b, mem, store)), StoreAfterReads(r, b, mem, store))
  }

  // The exact outcome of a write: the naive scatter of the ranges, over a store in which the pages
  // of the late read batches have first been zeroed.
  lemma ChainOutcome(e: Env, v: seq<Iovec>, mem: seq<byte>, store: seq<byte>, b: nat)
    requires Ready(e, v, mem, store) && b <= |Reads(e, v)|
    ensures AllFit(v, |mem|, |store|)
    ensures ChainResult(e, v, mem, store, b) == WriteAll(v, mem, ZeroedAt(Reads(e, v)[b..], store))
  {
    var p, r := Align(e, v), Reads(e, v);
    var s := ZeroedAt(r[b..], store);
    ReadyRuns(e, v, mem, store, b);
    LateBatchesWriteZeros(e, v, mem, store, b);
    ReadingAfterDamage(e, v, mem, store, b);
    ElisionSound(e, p, mem, s, Frontier(v));
    AlignedWriteIsScatter(e, v, mem, s);
  }
}
