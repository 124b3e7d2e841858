// Copying an object block by block (mio_cmd_obj_copy): chunks of up to 120 blocks are read into a
// buffer and written to the target. Chunks start and end in the middle of pages; the copy is
// nevertheless exact.
module ObjCopy {
  import opened Words
  import opened Transfers
  import opened Paging
  import opened Alignment
  import opened Decomposition
  import opened ReadRefinement
  import opened WriteChain
  import opened WriteOutcome
  import opened ObjRwArgs
  import opened ChainSteps
  import opened ObjIo
  import opened MotrClient

  const MAX_BLOCK_COUNT_PER_OP := 120

  // Block `i` of a chunk that starts at `off`, cut off at `end`.
  function Block(off: nat, bs: nat, end: nat, base: nat, i: nat): (v: Iovec)
    requires off + i * bs < end
  {
    var o := off + i * bs;
    Iovec(o, if o + bs > end then end - o else bs, base + i * bs)
  }

  predicate IsBlock(l: Iovec, off: nat, bs: nat, end: nat, base: nat, i: nat) {
    off + i * bs < end && l == Block(off, bs, end, base, i)
  }

  // The vector of a chunk: blocks side by side, in the store and in the buffer.
  ghost predicate IsChunk(v: seq<Iovec>, off: nat, bs: nat, end: nat, base: nat) {
    forall i :: 0 <= i < |v| ==> IsBlock(v[i], off, bs, end, base, i)
  }

  // Where a chunk of `n` blocks ends.
  function ChunkEnd(off: nat, bs: nat, n: nat, end: nat): nat {
    if off + n * bs < end then off + n * bs else end
  }

  lemma BlocksInOrder(i: nat, j: nat, bs: nat)
    requires i < j
    ensures i * bs + bs <= j * bs
  {
    Distributes(j, i, bs);
    AtLeast(j - i, bs);
  }

  // The blocks are not empty and touch without overlapping, in the object and in the buffer.
  lemma ChunkApart(v: seq<Iovec>, off: nat, bs: nat, end: nat, base: nat)
    requires IsChunk(v, off, bs, end, base) && bs > 0
    ensures forall k :: 0 <= k < |v| ==> 0 < v[k].len <= bs && off <= v[k].off
    ensures NoneOverlap(v) && BuffersDisjoint(v)
  {
    forall j, k | 0 <= j < k < |v|
      ensures v[j].End() <= v[k].off && v[j].base + v[j].len <= v[k].base
    {
      BlocksInOrder(j, k, bs);
    }
  }

  lemma BlockEnds(l: Iovec, off: nat, bs: nat, end: nat, base: nat, i: nat, n: nat)
    requires IsBlock(l, off, bs, end, base, i) && i < n
    ensures off <= l.off && l.End() <= ChunkEnd(off, bs, n, end)
  {
    BlocksInOrder(i, n, bs);
  }

  // The block a byte of the chunk is in.
  lemma BlockOf(off: nat, bs: nat, n: nat, end: nat, x: nat) returns (k: nat)
    requires bs > 0 && off <= x < ChunkEnd(off, bs, n, end)
    ensures k < n && off + k * bs <= x < off + k * bs + bs
  {
    k := (x - off) / bs;
    assert x - off == k * bs + (x - off) % bs;
    if n <= k {
      Grows(n, k, bs);
    }
  }

  // They tile the chunk.
  lemma ChunkCovers(v: seq<Iovec>, off: nat, bs: nat, end: nat, base: nat, x: nat)
    requires IsChunk(v, off, bs, end, base) && bs > 0
    ensures Covered(v, x) <==> off <= x < ChunkEnd(off, bs, |v|, end)
  {
    if Covered(v, x) {
      var k :| 0 <= k < |v| && v[k].Covers(x);
      BlockEnds(v[k], off, bs, end, base, k, |v|);
    }
    if off <= x < ChunkEnd(off, bs, |v|, end) {
      var k := BlockOf(off, bs, |v|, end, x);
      assert IsBlock(v[k], off, bs, end, base, k);
      assert v[k].Covers(x);
    }
  }

  lemma ChunkMaxEnd(v: seq<Iovec>, off: nat, bs: nat, end: nat, base: nat)
    requires IsChunk(v, off, bs, end, base) && bs > 0 && off < end && v != []
    ensures MaxEnd(v) == ChunkEnd(off, bs, |v|, end)
  {}

  lemma ChunkFits(v: seq<Iovec>, off: nat, bs: nat, end: nat, base: nat, n: nat, memory: nat, store: nat)
    requires IsChunk(v, off, bs, end, base) && bs > 0 && |v| == n && base + n * bs <= memory && end <= store
    ensures forall k :: 0 <= k < |v| ==> v[k].Fits(memory, store)
  {
    forall k | 0 <= k < |v| ensures v[k].Fits(memory, store) {
      BlocksInOrder(k, n, bs);
    }
  }

  // obj_alloc_iovecs.
  method AllocIovecs(heap: Heap, n: nat, bs: nat, off: nat, end: nat) returns (data: array<Iovec>)
    requires 0 < n && 0 < bs && off + (n - 1) * bs < end
    modifies heap
    ensures fresh(data) && data.Length == n
    ensures heap.bytes == old(heap.bytes) + Zeros(n * bs)
    ensures IsChunk(data[..], off, bs, end, |old(heap.bytes)|)
  {
    hide IsBlock;
    data := new Iovec[n];
    var base := heap.Alloc(n * bs);
    for i := 0 to n
      invariant heap.bytes == old(heap.bytes) + Zeros(n * bs)
      invariant forall k :: 0 <= k < i ==> IsBlock(data[k], off, bs, end, base, k)
    {
      BlockMade(off, bs, end, base, i, n);
      var o := off + i * bs;
      data[i] := Iovec(o, if o + bs > end then end - o else bs, base + i * bs);
    }
  }

  lemma BlockMade(off: nat, bs: nat, end: nat, base: nat, i: nat, n: nat)
    requires i < n && off + (n - 1) * bs < end
    ensures off + i * bs < end
    ensures var o := off + i * bs;
            IsBlock(Iovec(o, if o + bs > end then end - o else bs, base + i * bs), off, bs, end, base, i)
  {}

  // ----- late reads lie past the start of the write -----

  lemma TouchedFrom(e: Env, v: seq<Iovec>, start: nat, x: nat)
    requires e.ps > 0 && Touched(e, v, x) && forall k :: 0 <= k < |v| ==> start <= v[k].off
    ensures PageOf(start, e.ps) <= x
  {
    var k :| 0 <= k < |v| && Touches(e, v[k], x);
    PageOfAbove(PageOf(start, e.ps), v[k].off, e.ps);
  }

  // Every page to read back lies at or after the page the write starts in.
  lemma ReadsFrom(e: Env, v: seq<Iovec>, start: nat, k: nat)
    requires ValidEnv(e) && Sorted(e, v) && forall k :: 0 <= k < |v| ==> start <= v[k].off
    requires k < |Align(e, v).rbw|
    ensures PageOf(start, e.ps) <= Align(e, v).rbw[k].off
  {
    var p := Align(e, v);
    AlignReadsArePieces(e, v);
    AlignInv(e, v);
    assert RbwOk(e, p.rbw[k], p.brk, Frontier(v));
    var x := p.rbw[k].off;
    assert p.rbw[k] in p.aligned;
    var j :| 0 <= j < |p.aligned| && p.aligned[j] == p.rbw[k];
    assert p.aligned[j].Covers(x);
    CoversTouchedPages(e, v, x);
    TouchedFrom(e, v, start, x);
  }

  // The first page is read back as it should; those after it start past the start of the write.
  lemma LateAfterStart(e: Env, v: seq<Iovec>, start: nat, x: nat)
    requires ValidEnv(e) && Sorted(e, v) && forall k :: 0 <= k < |v| ==> start <= v[k].off
    requires Covered(Late(e, v), x)
    ensures start <= x
  {
    var p, r := Align(e, v), Reads(e, v);
    var b := BatchSize(r, e.max);
    var k :| 0 <= k < |Late(e, v)| && Late(e, v)[k].Covers(x);
    assert r[b + k].Covers(x) && r[b + k] == p.rbw[b + k];
    FirstBatchNotEmpty(e, v);
    ReadsFrom(e, v, start, 0);
    AlignInv(e, v);
    assert p.rbw[0].off + e.ps <= p.rbw[b + k].off;
    assert start < PageOf(start, e.ps) + e.ps;
  }

  lemma FirstBatchNotEmpty(e: Env, v: seq<Iovec>)
    requires ValidEnv(e) && Sorted(e, v) && Reads(e, v) != []
    ensures 0 < BatchSize(Reads(e, v), e.max)
  {
    var p := Align(e, v);
    AlignInv(e, v);
    assert RbwOk(e, p.rbw[0], p.brk, Frontier(v));
  }

  // ----- one chunk -----

  // The two objects agree below `n`.
  ghost predicate Agree(a: seq<byte>, b: seq<byte>, n: nat) {
    n <= |a| && n <= |b| && forall x :: 0 <= x < n ==> a[x] == b[x]
  }

  // A chunk read into the buffer and written out extends the agreement to its end.
  lemma ChunkExtends(v: seq<Iovec>, w: seq<Iovec>, e: Env, off: nat, bs: nat, end: nat, base: nat,
                     from: seq<byte>, to: seq<byte>, to': seq<byte>, before: seq<byte>, mem: seq<byte>)
    requires IsChunk(v, off, bs, end, base) && bs > 0 && end <= |from| && end <= |to| && ValidEnv(e)
    requires multiset(w) == multiset(v) && Sorted(e, w)
    requires AllFit(v, |before|, |from|) && Delivered(v, from, before, mem)
    requires AllFit(v, |mem|, |to|) && Scattered(v, mem, ZeroedAt(Late(e, w), to), to')
    requires Agree(to, from, off)
    ensures Agree(to', from, ChunkEnd(off, bs, |v|, end))
  {
    hide Late, IsChunk, Sorted;
    StartsAfter(v, w, off, bs, end, base);
    forall x | 0 <= x < ChunkEnd(off, bs, |v|, end)
      ensures x < |to'| && to'[x] == from[x]
    {
      ChunkCovers(v, off, bs, end, base, x);
      if off <= x {
        var k :| 0 <= k < |v| && v[k].Covers(x);
        assert v[k].Fits(|mem|, |to|);
        assert Fills(v[k], v[k].base + (x - v[k].off));
      } else if Covered(Late(e, w), x) {
        LateAfterStart(e, w, off, x);
      }
    }
  }

  lemma StartsAfter(v: seq<Iovec>, w: seq<Iovec>, off: nat, bs: nat, end: nat, base: nat)
    requires IsChunk(v, off, bs, end, base) && multiset(w) == multiset(v)
    ensures forall k :: 0 <= k < |w| ==> off <= w[k].off
  {
    forall k | 0 <= k < |w| ensures off <= w[k].off {
      assert w[k] in multiset(w) && w[k] in multiset(v);
    }
  }

  // What the two requests need to know of a chunk.
  lemma ChunkGood(v: seq<Iovec>, off: nat, bs: nat, end: nat, base: nat, memory: nat, store: nat)
    requires IsChunk(v, off, bs, end, base) && bs > 0 && v != [] && off < end <= store && base + |v| * bs <= memory
    ensures BuffersDisjoint(v) && SortsApart(v)
    ensures forall k :: 0 <= k < |v| ==> v[k].Fits(memory, store)
    ensures MaxEnd(v) == ChunkEnd(off, bs, |v|, end)
  {
    ChunkApart(v, off, bs, end, base);
    ApartSortsApart(v);
    ChunkFits(v, off, bs, end, base, |v|, memory, store);
    ChunkMaxEnd(v, off, bs, end, base);
  }

  lemma SortedByPermutation(v: seq<Iovec>, w: seq<Iovec>, e: Env, store: nat)
    requires multiset(w) == multiset(v) && ByOffset(w) && SortsApart(v)
    requires forall k :: 0 <= k < |v| ==> v[k].Fits(e.top, store)
    ensures Sorted(e, w) && Ordered(w)
  {
    SortedFits(v, w, e.top, store);
  }

  // The same from `n` on.
  ghost predicate SameFrom(a: seq<byte>, b: seq<byte>, n: nat) {
    |a| == |b| && forall x :: n <= x < |a| ==> a[x] == b[x]
  }

  // A chunk touches nothing past the last page it ends in.
  lemma ChunkTouches(v: seq<Iovec>, w: seq<Iovec>, e: Env, off: nat, bs: nat, end: nat, base: nat, s: seq<byte>, s': seq<byte>)
    requires IsChunk(v, off, bs, end, base) && multiset(w) == multiset(v) && e.ps > 0 && UntouchedKept(e, w, s, s')
    ensures |s'| == |s| && SameFrom(s', s, NextPage(ChunkEnd(off, bs, |v|, end), e.ps))
  {
    hide ChunkEnd, IsBlock;
    var n := ChunkEnd(off, bs, |v|, end);
    forall x | NextPage(n, e.ps) <= x < |s| ensures !Touched(e, w, x) {
      forall k | 0 <= k < |w| ensures !Touches(e, w[k], x) {
        assert w[k] in multiset(w) && w[k] in multiset(v);
        var i :| 0 <= i < |v| && v[i] == w[k];
        BlockEnds(v[i], off, bs, end, base, i, |v|);
        NextPageGrows(w[k].End(), n, e.ps);
      }
    }
  }

  lemma SameFurther(a: seq<byte>, b: seq<byte>, c: seq<byte>, m: nat, n: nat)
    requires SameFrom(a, b, m) && SameFrom(b, c, n) && m <= n
    ensures SameFrom(a, c, n)
  {}

  lemma SameAsItself(a: seq<byte>, n: nat)
    ensures SameFrom(a, a, n)
  {}

  // One pass of the copy loop.
  method CopyChunk(from: MotrObject, to: MotrObject, heap: Heap, motr: Motr, n: nat, bs: nat, off: nat, end: nat)
    returns (rc: int)
    requires from.Valid() && to.Valid() && from != to
    requires 0 < n && 0 < bs && off + (n - 1) * bs < end && end <= |from.data| && end <= |to.data|
    requires Agree(to.data, from.data, off)
    modifies heap, motr, from`data, from`size, from`stored, to`data, to`size, to`stored
    ensures rc <= 0 && from.Valid() && from.data == old(from.data) && from.size == old(from.size)
    ensures motr.Ran(old(motr.carried), motr.carried, rc)
    ensures |to.data| == |old(to.data)| && SameFrom(to.data, old(to.data), NextPage(ChunkEnd(off, bs, n, end), to.ps))
    ensures rc == 0 ==> to.Valid() && Agree(to.data, from.data, ChunkEnd(off, bs, n, end))
    ensures rc == 0 ==> to.size == if old(to.size) < ChunkEnd(off, bs, n, end) then ChunkEnd(off, bs, n, end) else old(to.size)
  {
    hide IsChunk, Late, Scattered, Delivered, Touched, ByOffset, BuffersDisjoint, Agree, Ordered,
         ChunkEnd, MaxEnd, AllFit, SortsApart, SameFrom, UntouchedKept, NextPage, Motr.Ran;
    var data := AllocIovecs(heap, n, bs, off, end);
    ghost var v, base, before := data[..], |old(heap.bytes)|, heap.bytes;
    BlocksBeforeEnd(n, bs, off, end);
    SameAsItself(to.data, NextPage(ChunkEnd(off, bs, n, end), to.ps));
    FirstNotEmpty(v, off, bs, end, base);
    ChunkGood(v, off, bs, end, base, |heap.bytes|, |from.data|);
    rc := ObjRead(from, heap, motr, data[..]);
    if rc != 0 {
      return;
    }
    ghost var mem, was, read := heap.bytes, to.data, motr.carried;
    ChunkGood(v, off, bs, end, base, |heap.bytes|, |to.data|);
    ghost var w;
    ghost var e := Env(to.ps, to.max, to.size, true, |heap.bytes|);
    rc, w := ObjWrite(to, heap, motr, data[..]);
    motr.RanOn(old(motr.carried), read, motr.carried, rc);
    SortedByPermutation(v, w, e, |was|);
    ChunkTouches(v, w, e, off, bs, end, base, was, to.data);
    if rc == 0 {
      ChunkExtends(v, w, e, off, bs, end, base, from.data, was, to.data, before, mem);
    }
  }

  lemma FirstNotEmpty(v: seq<Iovec>, off: nat, bs: nat, end: nat, base: nat)
    requires IsChunk(v, off, bs, end, base) && bs > 0 && v != []
    ensures v[0].len > 0
  {
    assert IsBlock(v[0], off, bs, end, base, 0);
  }

  lemma BlocksBeforeEnd(n: nat, bs: nat, off: nat, end: nat)
    requires 0 < n && off + (n - 1) * bs < end
    ensures off < end
  {}

  // ----- the whole copy -----

  // The blocks left from `last` on end in the last block of the object.
  predicate BlocksLeft(last: nat, n: nat, bs: nat, size: nat) {
    0 < n && last + (n - 1) * bs < size <= last + n * bs
  }

  // How many blocks the code counts, in 64 bits.
  function BlockCount(size: nat, bs: nat): nat
    requires 0 < bs
  {
    ToUint64(ToUint64(size - 1) / bs + 1)
  }

  // That is right except for an empty object, unless blocks have one byte: size - 1 wraps around.
  lemma BlockCountExactlyWhen(size: nat, bs: nat)
    requires 0 < bs && size < TWO_64
    ensures BlockCount(size, bs) == Ceiling(size, bs) <==> 0 < size || bs == 1
  {
    if size > 0 {
      BlockCountIs(size, bs);
      Distributes((size - 1) / bs, 1, bs);
      Quotient(size + bs - 1, (size - 1) / bs + 1, (size - 1) % bs, bs);
    } else {
      Quotient(bs - 1, 0, bs - 1, bs);
      if bs > 1 {
        QuotientGrows(0, TWO_64 - 1, bs);
        HalfAtMost(TWO_64 - 1, bs);
      }
    }
  }

  lemma HalfAtMost(x: nat, bs: nat)
    requires 1 < bs
    ensures 2 * (x / bs) <= x
  {
    assert x == (x / bs) * bs + x % bs;
    Grows(2, bs, x / bs);
  }

  lemma BlockCountIs(size: nat, bs: nat)
    requires 0 < bs && 0 < size < TWO_64
    ensures BlockCount(size, bs) == (size - 1) / bs + 1
  {
    assert size - 1 == ((size - 1) / bs) * bs + (size - 1) % bs;
    Grows(1, bs, (size - 1) / bs);
  }

  lemma BlocksAtFirst(size: nat, bs: nat)
    requires 0 < bs && size < TWO_64 && (0 < size || bs == 1)
    ensures if size == 0 then BlockCount(size, bs) == 0 else BlocksLeft(0, BlockCount(size, bs), bs, size)
  {
    if 0 < size {
      BlockCountIs(size, bs);
      assert size - 1 == ((size - 1) / bs) * bs + (size - 1) % bs;
      Distributes((size - 1) / bs, 1, bs);
    }
  }

  lemma NextChunk(last: nat, n: nat, left: nat, bs: nat, size: nat)
    requires 0 < n <= left && BlocksLeft(last, left, bs, size)
    ensures last + (n - 1) * bs < size
    ensures ChunkEnd(last, bs, n, size) == (if n == left then size else last + n * bs) <= size
    ensures n < left ==> BlocksLeft(last + n * bs, left - n, bs, size)
  {}

  // mio_cmd_obj_copy, once both objects are open.
  method CopyObject(from: MotrObject, to: MotrObject, heap: Heap, motr: Motr, bs: nat) returns (rc: int)
    requires from.Valid() && to.Valid() && from != to
    requires 0 < bs && (0 < from.size || bs == 1)
    requires from.size < TWO_64 && from.size <= |from.data| && from.size <= |to.data|
    modifies heap, motr, from`data, from`size, from`stored, to`data, to`size, to`stored
    ensures rc <= 0 && from.Valid() && from.data == old(from.data) && from.size == old(from.size)
    ensures motr.Ran(old(motr.carried), motr.carried, rc)
    ensures |to.data| == |old(to.data)| && SameFrom(to.data, old(to.data), NextPage(from.size, to.ps))
    ensures rc == 0 ==> to.Valid() && Agree(to.data, from.data, from.size)
    ensures rc == 0 ==> to.size == LargerOf(old(to.size), from.size)
  {
    hide Agree, ChunkEnd, BlocksLeft, BlockCount, SameFrom;
    rc := 0;
    var lastIndex: nat := 0;
    var maxIndex := from.size;
    var blockCount: nat := BlockCount(from.size, bs);
    ghost var oldSize := to.size;
    BlocksAtFirst(from.size, bs);
    NothingAgrees(to.data, from.data);
    SameAsItself(to.data, NextPage(maxIndex, to.ps));
    while blockCount > 0
      invariant motr.Ran(old(motr.carried), motr.carried, 0)
      invariant SameFrom(to.data, old(to.data), NextPage(maxIndex, to.ps))
      invariant from.Valid() && from.data == old(from.data) && from.size == maxIndex
      invariant |to.data| == |old(to.data)|
      invariant blockCount > 0 ==> BlocksLeft(lastIndex, blockCount, bs, maxIndex)
      invariant rc == 0 && to.Valid() && Agree(to.data, from.data, if blockCount == 0 then maxIndex else lastIndex)
      invariant to.size == LargerOf(oldSize, if blockCount == 0 then maxIndex else lastIndex)
    {
      var bcount := if blockCount > MAX_BLOCK_COUNT_PER_OP then MAX_BLOCK_COUNT_PER_OP else blockCount;
      NextChunk(lastIndex, bcount, blockCount, bs, maxIndex);
      LastBefore(lastIndex, blockCount, bs, maxIndex);
      NextPageGrows(ChunkEnd(lastIndex, bs, bcount, maxIndex), maxIndex, to.ps);
      ghost var was := to.data;
      rc := CopyChunk(from, to, heap, motr, bcount, bs, lastIndex, maxIndex);
      SameFurther(to.data, was, old(to.data), NextPage(ChunkEnd(lastIndex, bs, bcount, maxIndex), to.ps),
                  NextPage(maxIndex, to.ps));
      if rc != 0 {
        break;
      }
      blockCount := blockCount - bcount;
      lastIndex := lastIndex + bcount * bs;
    }
  }

  function LargerOf(a: nat, b: nat): nat {
    if a < b then b else a
  }

  lemma LastBefore(last: nat, n: nat, bs: nat, size: nat)
    requires BlocksLeft(last, n, bs, size)
    ensures last < size
  {}

  lemma NothingAgrees(a: seq<byte>, b: seq<byte>)
    ensures Agree(a, b, 0)
  {}
}
