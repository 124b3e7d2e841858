// Byte buffers, IO vectors, and the three bulk transfers everything else is built from: a READ or
// WRITE operation of the page store and the data copy between two areas of memory.
module Transfers {

  newtype byte = b: int | 0 <= b < 256

  function Zeros(n: nat): (z: seq<byte>)
    ensures |z| == n
    ensures forall i :: 0 <= i < n ==> z[i] == 0
  {
    seq(n, _ => 0)
  }

  // `dst` with the `len` bytes at `at` replaced by the `len` bytes of `src` at `from`.
  function Blit(dst: seq<byte>, at: nat, src: seq<byte>, from: nat, len: nat): (r: seq<byte>)
    requires at + len <= |dst| && from + len <= |src|
    ensures |r| == |dst|
    ensures forall x {:trigger r[x]} :: 0 <= x < |dst| ==> r[x] == if at <= x < at + len then src[from + (x - at)] else dst[x]
  {
    seq(|dst|, x requires 0 <= x < |dst| => if at <= x < at + len then src[from + (x - at)] else dst[x])
  }

  // One entry of an IO vector (struct mio_iovec): `len` bytes at object offset `off`, held in
  // memory at address `base`. In a data-copy vector `off` is an offset inside the area at `base`.
  datatype Iovec = Iovec(off: nat, len: nat, base: nat) {
    function End(): nat { off + len }
    predicate Covers(x: int) { off <= x < off + len }
    predicate Fits(memory: nat, store: nat) { base + len <= memory && off + len <= store }
  }

  ghost predicate AllFit(v: seq<Iovec>, memory: nat, store: nat) {
    forall k :: 0 <= k < |v| ==> v[k].Fits(memory, store)
  }

  ghost predicate Ordered(v: seq<Iovec>) {
    forall j, k :: 0 <= j < k < |v| ==> v[j].End() <= v[k].off
  }

  ghost predicate Covered(v: seq<Iovec>, x: int) {
    exists k :: 0 <= k < |v| && v[k].Covers(x)
  }

  // ----- WRITE: memory to store -----

  function WriteAll(v: seq<Iovec>, mem: seq<byte>, store: seq<byte>): (r: seq<byte>)
    requires AllFit(v, |mem|, |store|)
    ensures |r| == |store|
  {
    if v == [] then store
    else
      var l := v[|v| - 1];
      Blit(WriteAll(v[..|v| - 1], mem, store), l.off, mem, l.base, l.len)
  }

  lemma WriteSnoc(v: seq<Iovec>, l: Iovec, mem: seq<byte>, store: seq<byte>)
    requires AllFit(v + [l], |mem|, |store|)
    ensures AllFit(v, |mem|, |store|)
    ensures l.Fits(|mem|, |store|)
    ensures WriteAll(v + [l], mem, store) == Blit(WriteAll(v, mem, store), l.off, mem, l.base, l.len)
  {
    assert forall k :: 0 <= k < |v| ==> v[k] == (v + [l])[k];
    assert (v + [l])[|v|] == l;
    assert (v + [l])[..|v|] == v;
  }

  // Batches of a vector, written one after the other, write what the whole vector writes.
  lemma {:induction false} WriteBatches(a: seq<Iovec>, b: seq<Iovec>, mem: seq<byte>, store: seq<byte>)
    requires AllFit(a, |mem|, |store|) && AllFit(b, |mem|, |store|)
    ensures AllFit(a + b, |mem|, |store|)
    ensures WriteAll(a + b, mem, store) == WriteAll(b, mem, WriteAll(a, mem, store))
  {
    if b == [] {
      assert a + b == a;
    } else {
      var init, l := b[..|b| - 1], b[|b| - 1];
      assert b == init + [l];
      WriteBatches(a, init, mem, store);
      assert a + b == (a + init) + [l];
      WriteSnoc(a + init, l, mem, store);
    }
  }

  // A stretch of a vector, written in two batches.
  lemma WriteSlices(v: seq<Iovec>, from: nat, s: nat, t: nat, mem: seq<byte>, store: seq<byte>)
    requires AllFit(v, |mem|, |store|) && from <= s <= t <= |v|
    ensures AllFit(v[from..s], |mem|, |store|) && AllFit(v[s..t], |mem|, |store|) && AllFit(v[from..t], |mem|, |store|)
    ensures WriteAll(v[from..t], mem, store) == WriteAll(v[s..t], mem, WriteAll(v[from..s], mem, store))
  {
    hide WriteAll;
    WriteBatches(v[from..s], v[s..t], mem, store);
    assert v[from..s] + v[s..t] == v[from..t];
  }

  // A byte no entry covers keeps its value.
  lemma {:induction false} WriteMisses(v: seq<Iovec>, mem: seq<byte>, store: seq<byte>, x: nat)
    requires AllFit(v, |mem|, |store|) && x < |store|
    requires !Covered(v, x)
    ensures WriteAll(v, mem, store)[x] == store[x]
  {
    if v != [] {
      var init := v[..|v| - 1];
      assert forall k :: 0 <= k < |init| ==> init[k] == v[k];
      assert !v[|v| - 1].Covers(x);
      WriteMisses(init, mem, store, x);
    }
  }

  // A byte exactly one entry can cover gets that entry's byte of memory.
  lemma {:induction false} WriteHits(v: seq<Iovec>, mem: seq<byte>, store: seq<byte>, k: nat, x: nat)
    requires AllFit(v, |mem|, |store|) && x < |store|
    requires k < |v| && v[k].Covers(x)
    requires forall j :: 0 <= j < |v| && j != k ==> !v[j].Covers(x)
    ensures WriteAll(v, mem, store)[x] == mem[v[k].base + (x - v[k].off)]
  {
    var init := v[..|v| - 1];
    assert forall j :: 0 <= j < |init| ==> init[j] == v[j];
    if k < |v| - 1 {
      assert !v[|v| - 1].Covers(x);
      WriteHits(init, mem, store, k, x);
    }
  }

  // Only the memory the entries point at is read.
  lemma {:induction false} WriteReadsOnly(v: seq<Iovec>, mem: seq<byte>, mem': seq<byte>, store: seq<byte>, bound: nat)
    requires AllFit(v, |mem|, |store|) && |mem| == |mem'| && bound <= |mem|
    requires forall k :: 0 <= k < |v| ==> v[k].base + v[k].len <= bound
    requires forall a :: 0 <= a < bound ==> mem[a] == mem'[a]
    ensures WriteAll(v, mem, store) == WriteAll(v, mem', store)
  {
    if v != [] {
      var init, l := v[..|v| - 1], v[|v| - 1];
      WriteReadsOnly(init, mem, mem', store, bound);
    }
  }

  // ----- READ: store to memory -----

  function ReadAll(v: seq<Iovec>, mem: seq<byte>, store: seq<byte>): (r: seq<byte>)
    requires AllFit(v, |mem|, |store|)
    ensures |r| == |mem|
  {
    if v == [] then mem
    else
      var l := v[|v| - 1];
      Blit(ReadAll(v[..|v| - 1], mem, store), l.base, store, l.off, l.len)
  }

  lemma ReadSnoc(v: seq<Iovec>, l: Iovec, mem: seq<byte>, store: seq<byte>)
    requires AllFit(v + [l], |mem|, |store|)
    ensures AllFit(v, |mem|, |store|)
    ensures l.Fits(|mem|, |store|)
    ensures ReadAll(v + [l], mem, store) == Blit(ReadAll(v, mem, store), l.base, store, l.off, l.len)
  {
    assert forall k :: 0 <= k < |v| ==> v[k] == (v + [l])[k];
    assert (v + [l])[|v|] == l;
    assert (v + [l])[..|v|] == v;
  }

  lemma {:induction false} ReadBatches(a: seq<Iovec>, b: seq<Iovec>, mem: seq<byte>, store: seq<byte>)
    requires AllFit(a, |mem|, |store|) && AllFit(b, |mem|, |store|)
    ensures AllFit(a + b, |mem|, |store|)
    ensures ReadAll(a + b, mem, store) == ReadAll(b, ReadAll(a, mem, store), store)
  {
    if b == [] {
      assert a + b == a;
    } else {
      var init, l := b[..|b| - 1], b[|b| - 1];
      assert b == init + [l];
      ReadBatches(a, init, mem, store);
      assert a + b == (a + init) + [l];
      ReadSnoc(a + init, l, mem, store);
    }
  }

  lemma ReadSlices(v: seq<Iovec>, from: nat, s: nat, t: nat, mem: seq<byte>, store: seq<byte>)
    requires AllFit(v, |mem|, |store|) && from <= s <= t <= |v|
    ensures AllFit(v[from..s], |mem|, |store|) && AllFit(v[s..t], |mem|, |store|) && AllFit(v[from..t], |mem|, |store|)
    ensures ReadAll(v[from..t], mem, store) == ReadAll(v[s..t], ReadAll(v[from..s], mem, store), store)
  {
    hide ReadAll;
    ReadBatches(v[from..s], v[s..t], mem, store);
    assert v[from..s] + v[s..t] == v[from..t];
  }

  ghost predicate Fills(l: Iovec, a: int) { l.base <= a < l.base + l.len }

  lemma {:induction false} ReadMisses(v: seq<Iovec>, mem: seq<byte>, store: seq<byte>, a: nat)
    requires AllFit(v, |mem|, |store|) && a < |mem|
    requires forall k :: 0 <= k < |v| ==> !Fills(v[k], a)
    ensures ReadAll(v, mem, store)[a] == mem[a]
  {
    if v != [] {
      var init := v[..|v| - 1];
      assert forall k :: 0 <= k < |init| ==> init[k] == v[k];
      assert !Fills(v[|v| - 1], a);
      ReadMisses(init, mem, store, a);
    }
  }

  lemma {:induction false} ReadHits(v: seq<Iovec>, mem: seq<byte>, store: seq<byte>, k: nat, a: nat)
    requires AllFit(v, |mem|, |store|) && a < |mem|
    requires k < |v| && Fills(v[k], a)
    requires forall j :: 0 <= j < |v| && j != k ==> !Fills(v[j], a)
    ensures ReadAll(v, mem, store)[a] == store[v[k].off + (a - v[k].base)]
  {
    var init := v[..|v| - 1];
    assert forall j :: 0 <= j < |init| ==> init[j] == v[j];
    if k < |v| - 1 {
      assert !Fills(v[|v| - 1], a);
      ReadHits(init, mem, store, k, a);
    }
  }

  // ----- data copy: memory to memory (motr_obj_data_copy) -----

  predicate CopyFits(s: Iovec, d: Iovec, memory: nat) {
    s.base + s.off + d.len <= memory && d.base + d.off + d.len <= memory
  }

  ghost predicate CopiesFit(src: seq<Iovec>, dst: seq<Iovec>, memory: nat) {
    |src| == |dst| && forall d :: 0 <= d < |dst| ==> CopyFits(src[d], dst[d], memory)
  }

  function CopyOne(s: Iovec, d: Iovec, mem: seq<byte>): (r: seq<byte>)
    requires CopyFits(s, d, |mem|)
    ensures |r| == |mem|
  {
    Blit(mem, d.base + d.off, mem, s.base + s.off, d.len)
  }

  function CopyAll(src: seq<Iovec>, dst: seq<Iovec>, mem: seq<byte>): (r: seq<byte>)
    requires CopiesFit(src, dst, |mem|)
    ensures |r| == |mem|
  {
    if dst == [] then mem
    else
      var n := |dst| - 1;
      CopyOne(src[n], dst[n], CopyAll(src[..n], dst[..n], mem))
  }

  lemma CopySnoc(src: seq<Iovec>, dst: seq<Iovec>, s: Iovec, d: Iovec, mem: seq<byte>)
    requires CopiesFit(src + [s], dst + [d], |mem|)
    ensures CopiesFit(src, dst, |mem|)
    ensures CopyFits(s, d, |mem|)
    ensures CopyAll(src + [s], dst + [d], mem) == CopyOne(s, d, CopyAll(src, dst, mem))
  {
    var src', dst' := src + [s], dst + [d];
    assert forall k :: 0 <= k < |dst| ==> CopyFits(src'[k], dst'[k], |mem|);
    assert CopyFits(src'[|dst|], dst'[|dst|], |mem|);
    assert src'[..|dst|] == src && dst'[..|dst|] == dst;
  }

  ghost predicate Stores(d: Iovec, a: int) { d.base + d.off <= a < d.base + d.off + d.len }

  lemma {:induction false} CopyMisses(src: seq<Iovec>, dst: seq<Iovec>, mem: seq<byte>, a: nat)
    requires CopiesFit(src, dst, |mem|) && a < |mem|
    requires forall k :: 0 <= k < |dst| ==> !Stores(dst[k], a)
    ensures CopyAll(src, dst, mem)[a] == mem[a]
  {
    if dst != [] {
      var n := |dst| - 1;
      assert forall k :: 0 <= k < n ==> dst[..n][k] == dst[k];
      assert !Stores(dst[n], a);
      CopyMisses(src[..n], dst[..n], mem, a);
    }
  }

  // The value at one address after the last copy of a vector.
  lemma CopyLast(src: seq<Iovec>, dst: seq<Iovec>, mem: seq<byte>, a: nat)
    requires CopiesFit(src, dst, |mem|) && a < |mem| && dst != []
    ensures var n := |dst| - 1;
            && |src| == |dst| && CopiesFit(src[..n], dst[..n], |mem|)
            && CopyFits(src[n], dst[n], |mem|)
            && CopyAll(src, dst, mem)[a] ==
               CopyAll(src[..n], dst[..n], mem)[
                 if Stores(dst[n], a) then src[n].base + src[n].off + (a - (dst[n].base + dst[n].off)) else a]
  {}

  // A copy that reads below `lo` and writes at or above it.
  predicate Upward(s: Iovec, d: Iovec, lo: nat) {
    s.base + s.off + d.len <= lo <= d.base + d.off
  }

  ghost predicate AllUpward(src: seq<Iovec>, dst: seq<Iovec>, lo: nat) {
    |src| == |dst| && forall d :: 0 <= d < |dst| ==> Upward(src[d], dst[d], lo)
  }

  lemma UpwardInit(src: seq<Iovec>, dst: seq<Iovec>, lo: nat)
    requires AllUpward(src, dst, lo) && dst != []
    ensures AllUpward(src[..|dst| - 1], dst[..|dst| - 1], lo)
    ensures Upward(src[|dst| - 1], dst[|dst| - 1], lo)
  {}

  lemma UpwardKeepsBelow(src: seq<Iovec>, dst: seq<Iovec>, mem: seq<byte>, lo: nat, a: nat)
    requires CopiesFit(src, dst, |mem|) && AllUpward(src, dst, lo) && a < lo <= |mem|
    ensures CopyAll(src, dst, mem)[a] == mem[a]
  {}

  // A copy that stores to an address fetches its byte from below `lo`, where the earlier copies
  // have changed nothing.
  lemma LastStores(src: seq<Iovec>, dst: seq<Iovec>, mem: seq<byte>, lo: nat, a: nat)
    requires CopiesFit(src, dst, |mem|) && AllUpward(src, dst, lo) && lo <= |mem| && a < |mem|
    requires dst != [] && Stores(dst[|dst| - 1], a)
    ensures var n := |dst| - 1;
            var b := src[n].base + src[n].off + (a - (dst[n].base + dst[n].off));
            0 <= b < lo && CopyAll(src, dst, mem)[a] == mem[b]
  {
    hide CopyAll, CopiesFit, AllUpward;
    var n := |dst| - 1;
    CopyLast(src, dst, mem, a);
    UpwardInit(src, dst, lo);
    UpwardKeepsBelow(src[..n], dst[..n], mem, lo, src[n].base + src[n].off + (a - (dst[n].base + dst[n].off)));
  }

  lemma LastMisses(src: seq<Iovec>, dst: seq<Iovec>, mem: seq<byte>, lo: nat, a: nat)
    requires CopiesFit(src, dst, |mem|) && AllUpward(src, dst, lo) && lo <= |mem| && a < |mem|
    requires dst != [] && !Stores(dst[|dst| - 1], a)
    ensures var n := |dst| - 1;
            && |src| == |dst| && CopiesFit(src[..n], dst[..n], |mem|) && AllUpward(src[..n], dst[..n], lo)
            && CopyAll(src, dst, mem)[a] == CopyAll(src[..n], dst[..n], mem)[a]
  {
    hide CopyAll, CopiesFit, AllUpward;
    CopyLast(src, dst, mem, a);
    UpwardInit(src, dst, lo);
  }

  lemma NoCopies(src: seq<Iovec>, dst: seq<Iovec>, mem: seq<byte>)
    requires CopiesFit(src, dst, |mem|) && dst == []
    ensures CopyAll(src, dst, mem) == mem
  {}

  // Upward copies give an address the same value from two memories that agree below `lo` when
  // the memories agree there too, or when entry `d` stores to it.
  lemma {:induction false} CopyAgrees(src: seq<Iovec>, dst: seq<Iovec>, mem: seq<byte>, mem': seq<byte>, lo: nat, a: nat, d: nat)
    requires CopiesFit(src, dst, |mem|) && |mem| == |mem'| && lo <= |mem| && a < |mem|
    requires forall b :: 0 <= b < lo ==> mem[b] == mem'[b]
    requires AllUpward(src, dst, lo)
    requires mem[a] == mem'[a] || (d < |dst| && Stores(dst[d], a))
    ensures CopyAll(src, dst, mem)[a] == CopyAll(src, dst, mem')[a]
  {
    hide CopyAll, CopiesFit, AllUpward;
    if dst == [] {
      NoCopies(src, dst, mem);
      NoCopies(src, dst, mem');
    } else {
      var n := |dst| - 1;
      if Stores(dst[n], a) {
        LastStores(src, dst, mem, lo, a);
        LastStores(src, dst, mem', lo, a);
      } else {
        LastMisses(src, dst, mem, lo, a);
        LastMisses(src, dst, mem', lo, a);
        CopyAgrees(src[..n], dst[..n], mem, mem', lo, a, d);
      }
    }
  }
}
