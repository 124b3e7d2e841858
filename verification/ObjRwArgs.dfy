// The read/write arguments (struct motr_obj_rw_args) and the functions that fill them, on the
// arrays the driver allocates: every store into one of them is shown to be in bounds.
module ObjRwArgs {
  import opened Errors
  import opened Transfers
  import opened Paging
  import opened Alignment
  import opened Decomposition
  import opened WriteOutcome
  import opened ReadElision

  // Memory: a caller's buffers and, allocated upwards, the driver's scratch pages.
  class Heap {
    var bytes: seq<byte>

    constructor (b: seq<byte>)
      ensures bytes == b
    {
      bytes := b;
    }

    // mio_mem_alloc: zeroed memory.
    method Alloc(n: nat) returns (base: nat)
      modifies this
      ensures base == |old(bytes)| && bytes == old(bytes) + Zeros(n)
    {
      base := |bytes|;
      bytes := bytes + Zeros(n);
    }

    // mio_mem_copy.
    method Copy(to: nat, from: nat, len: nat)
      requires to + len <= |bytes| && from + len <= |bytes|
      modifies this
      ensures bytes == Blit(old(bytes), to, old(bytes), from, len)
    {
      bytes := Blit(bytes, to, bytes, from, len);
    }
  }

  // Memory that only grew, by zeroed pages.
  ghost predicate Grown(before: seq<byte>, after: seq<byte>) {
    |before| <= |after| && forall a :: 0 <= a < |after| ==> after[a] == if a < |before| then before[a] else 0
  }

  // ----- order and overlap -----

  ghost predicate ByOffset(v: seq<Iovec>) {
    forall j, k :: 0 <= j < k < |v| ==> v[j].off <= v[k].off
  }

  ghost predicate NoneOverlap(v: seq<Iovec>) {
    forall j, k :: 0 <= j < k < |v| ==> v[j].End() <= v[k].off || v[k].End() <= v[j].off
  }

  ghost predicate NeighboursApart(v: seq<Iovec>) {
    forall k :: 0 < k < |v| ==> v[k - 1].End() <= v[k].off
  }

  // Comparing neighbours is enough.
  lemma {:induction false} NeighboursOrder(v: seq<Iovec>, j: nat, k: nat)
    requires NeighboursApart(v) && j < k < |v|
    ensures v[j].End() <= v[k].off
  {
    if j < k - 1 {
      NeighboursOrder(v, j, k - 1);
      assert v[k - 1].End() <= v[k].off;
    }
  }

  lemma NeighboursApartIsOrdered(v: seq<Iovec>)
    ensures NeighboursApart(v) <==> Ordered(v)
  {
    if NeighboursApart(v) {
      forall j, k | 0 <= j < k < |v| ensures v[j].End() <= v[k].off {
        NeighboursOrder(v, j, k);
      }
    }
  }

  // The check accepts exactly the vectors no two ranges of which overlap, when none is empty.
  lemma OverlapCheckExact(v: seq<Iovec>, w: seq<Iovec>)
    requires multiset(v) == multiset(w) && ByOffset(v)
    requires forall k :: 0 <= k < |w| ==> w[k].len > 0
    ensures NeighboursApart(v) <==> NoneOverlap(w)
  {
    NeighboursApartIsOrdered(v);
    forall k | 0 <= k < |v| ensures v[k].len > 0 {
      assert v[k] in multiset(v) && v[k] in multiset(w);
    }
    if NeighboursApart(v) {
      NoneOverlapPermutes(v, w);
    }
    if NoneOverlap(w) {
      NoneOverlapPermutes(w, v);
      forall k | 0 < k < |v| ensures v[k - 1].End() <= v[k].off {
        assert v[k - 1].off <= v[k].off;
      }
    }
  }

  lemma NoneOverlapPermutes(v: seq<Iovec>, w: seq<Iovec>)
    requires multiset(v) == multiset(w) && NoneOverlap(v)
    requires forall k :: 0 <= k < |v| ==> v[k].len > 0
    ensures NoneOverlap(w)
  {
    forall j, k | 0 <= j < k < |w| ensures w[j].End() <= w[k].off || w[k].End() <= w[j].off {
      OnceEach(v, w[j]);
      NotTwice(w, j, k);
      assert w[j] in multiset(w) && w[j] in multiset(v);
      assert w[k] in multiset(w) && w[k] in multiset(v);
      var a :| 0 <= a < |v| && v[a] == w[j];
      var b :| 0 <= b < |v| && v[b] == w[k];
      assert if a < b then v[a].End() <= v[b].off || v[b].End() <= v[a].off
             else v[b].End() <= v[a].off || v[a].End() <= v[b].off;
    }
  }

  lemma OnceEach(v: seq<Iovec>, x: Iovec)
    requires NoneOverlap(v) && forall k :: 0 <= k < |v| ==> v[k].len > 0
    ensures multiset(v)[x] <= 1
  {
    if multiset(v)[x] >= 2 {
      var a, b := TwiceInSequence(v, x);
    }
  }

  lemma NotTwice(w: seq<Iovec>, j: nat, k: nat)
    requires j < k < |w| && multiset(w)[w[j]] <= 1
    ensures w[j] != w[k]
  {
    if w[j] == w[k] {
      TwiceInMultiset(w, j, k);
    }
  }

  lemma TwiceInMultiset(w: seq<Iovec>, j: nat, k: nat)
    requires j < k < |w| && w[j] == w[k]
    ensures multiset(w)[w[j]] >= 2
  {
    assert w == w[..k] + w[k..];
    assert w[..k][j] == w[j] && w[k..][0] == w[k];
    assert w[j] in multiset(w[..k]) && w[k] in multiset(w[k..]);
  }

  lemma {:induction false} TwiceInSequence(v: seq<Iovec>, x: Iovec) returns (a: nat, b: nat)
    requires multiset(v)[x] >= 2
    ensures a < b < |v| && v[a] == x == v[b]
  {
    assert v == [v[0]] + v[1..];
    if v[0] == x {
      assert multiset(v[1..])[x] >= 1;
      a := 0;
      var c :| 0 <= c < |v[1..]| && v[1..][c] == x;
      b := c + 1;
    } else {
      a, b := TwiceInSequence(v[1..], x);
      a, b := a + 1, b + 1;
    }
  }

  // ----- the arguments -----

  // motr_obj_rw_args_estimate_iovcnts.
  method EstimateIovcnts(v: seq<Iovec>, max: nat) returns (alignedCnt: nat, dcCnt: nat)
    requires max > 0
    ensures alignedCnt == AlignedEstimate(v, max) && dcCnt == 2 * |v|
  {
    alignedCnt, dcCnt := 0, 0;
    for i := 0 to |v|
      invariant alignedCnt == AlignedEstimate(v[..i], max) && dcCnt == 2 * i
    {
      dcCnt := dcCnt + 2;
      alignedCnt := alignedCnt + (v[i].len + max - 1) / max;
      alignedCnt := alignedCnt + 2;
      assert v[..i + 1][..i] == v[..i];
    }
    assert v[..|v|] == v;
  }

  // The driver's page numbers, in terms of page offsets: of the first byte ...
  lemma FirstPageNumber(off: nat, ps: nat)
    requires ps > 0
    ensures 0 <= off / ps && PageOf(off, ps) == (off / ps) * ps
    ensures NextPage(off, ps) == (if Aligned(off, ps) then off else (off / ps + 1) * ps)
  {
    assert off == (off / ps) * ps + off % ps;
    Distributes(off / ps, 1, ps);
  }

  lemma InPage(off: nat, ps: nat)
    requires ps > 0
    ensures PageOf(off, ps) <= off && off - PageOf(off, ps) == off % ps
  {}

  // ... and of the last one before `end`.
  lemma LastPageNumber(end: nat, ps: nat)
    requires ps > 0 && end > 0
    ensures Aligned(end, ps) ==> end == ((end - 1) / ps + 1) * ps
    ensures !Aligned(end, ps) ==> PageOf(end, ps) == ((end - 1) / ps) * ps
  {
    var q, r := end / ps, end % ps;
    assert end == q * ps + r;
    if r == 0 {
      Distributes(q, 1, ps);
      Quotient(end - 1, q - 1, ps - 1, ps);
    } else {
      Quotient(end - 1, q, r - 1, ps);
    }
  }

  // How the cut of a range follows from its page numbers.
  lemma CutByPageNumbers(e: Env, r: Iovec)
    requires Positive(e) && r.len > 0
    ensures var first, last := r.off / e.ps, (r.off + r.len - 1) / e.ps;
            && first <= last
            && (!Aligned(r.off, e.ps) ==>
                  && (first == last <==> CutOf(e, r) == OnePage)
                  && (first < last ==>
                        CutOf(e, r) == ThreeParts((first + 1) * e.ps, if Aligned(r.End(), e.ps) then r.End() else last * e.ps)))
            && (Aligned(r.off, e.ps) ==>
                  CutOf(e, r) == ThreeParts(r.off, if Aligned(r.End(), e.ps) then r.End() else last * e.ps))
  {
    var first, last := r.off / e.ps, (r.off + r.len - 1) / e.ps;
    FirstPageNumber(r.off, e.ps);
    LastPageNumber(r.End(), e.ps);
    QuotientGrows(r.off, r.End() - 1, e.ps);
    if Aligned(r.End(), e.ps) {
      PageOfWithin(r.End(), r.End(), e.ps);
    }
    Distributes(last, first, e.ps);
    Distributes(last, 1, e.ps);
    Distributes(first, 1, e.ps);
    if first < last {
      AtLeast(last - first, e.ps);
    }
  }

  // The lengths of head and body of a range over three pages or more.
  lemma ThreePartLengths(e: Env, r: Iovec)
    requires Positive(e) && r.len > 0 && !Aligned(r.off, e.ps)
    requires r.off / e.ps < (r.off + r.len - 1) / e.ps
    ensures var first, last := r.off / e.ps, (r.off + r.len - 1) / e.ps;
            && CutOf(e, r).ThreeParts?
            && CutOf(e, r).first == r.off + (e.ps - r.off % e.ps) <= CutOf(e, r).last <= r.End()
            && CutOf(e, r).last - CutOf(e, r).first ==
               (if Aligned(r.End(), e.ps) then last - first else last - first - 1) * e.ps
            && Aligned(CutOf(e, r).last, e.ps) && (Aligned(r.End(), e.ps) ==> CutOf(e, r).last == r.End())
  {
    var first, last := r.off / e.ps, (r.off + r.len - 1) / e.ps;
    CutByPageNumbers(e, r);
    FirstPageNumber(r.off, e.ps);
    LastPageNumber(r.End(), e.ps);
    Distributes(first, 1, e.ps);
    Distributes(last, first, e.ps);
    Distributes(last - first, 1, e.ps);
    Distributes(last, 1, e.ps);
  }

  lemma ThreePartsAdded(e: Env, p: Plan, r: Iovec)
    requires Positive(e) && r.len > 0 && CutOf(e, r).ThreeParts?
    ensures var first, last := CutOf(e, r).first, CutOf(e, r).last;
            && first <= last
            && AddRange(e, p, r) == AddTail(e, AddClone(e, AddHead(e, p, r, first), Body(r, first, last)), r, last)
  {}

  // A range over two pages, and one that starts on a page.
  lemma TwoPageParts(e: Env, r: Iovec)
    requires Positive(e) && r.len > 0 && !Aligned(r.off, e.ps)
    requires (r.off + r.len - 1) / e.ps == r.off / e.ps + 1
    ensures var len1 := e.ps - r.off % e.ps;
            && len1 < r.len && r.len - len1 <= e.ps
            && CutOf(e, r) == ThreeParts(r.off + len1, if r.len - len1 == e.ps then r.End() else r.off + len1)
            && Aligned(r.off + len1, e.ps) && Aligned(e.ps, e.ps)
  {
    ThreePartLengths(e, r);
    Distributes(1, 0, e.ps);
    Quotient(e.ps, 1, 0, e.ps);
    AlignedSum(r.off + (e.ps - r.off % e.ps), e.ps, e.ps);
    if r.len - (e.ps - r.off % e.ps) == e.ps {
      assert Aligned(r.End(), e.ps);
    }
  }

  lemma AlignedParts(e: Env, r: Iovec)
    requires Positive(e) && r.len > 0 && Aligned(r.off, e.ps) && !Aligned(r.len, e.ps)
    ensures var n := r.len - r.End() % e.ps;
            && 0 < r.End() % e.ps < e.ps && n >= 0
            && CutOf(e, r) == ThreeParts(r.off, r.off + n)
            && Aligned(n, e.ps)
  {
    if Aligned(r.End(), e.ps) {
      AlignedSum(r.End(), r.off, e.ps);
    }
    PageOfAbove(r.off, r.End(), e.ps);
    AlignedSum(PageOf(r.End(), e.ps), r.off, e.ps);
  }

  lemma CloneCounts(e: Env, p: Plan, v: Iovec)
    requires Positive(e)
    ensures |AddClone(e, p, v).aligned| == |p.aligned| + Ceiling(v.len, e.max)
    ensures AddClone(e, p, v).src == p.src && Tally(AddClone(e, p, v)) == Tally(p)
  {
    ChunkCount(v.off, v.len, v.base, e.max);
  }

  // The first piece of a run, and the pieces of the rest.
  lemma FirstChunk(off: nat, len: nat, base: nat, max: nat)
    requires 0 < max && 0 < len
    ensures var n := if len > max then max else len;
            Chunks(off, len, base, max) == [Iovec(off, n, base)] + Chunks(off + n, len - n, base + n, max)
  {}

  lemma NoChunks(off: nat, base: nat, max: nat)
    requires 0 < max
    ensures Chunks(off, 0, base, max) == []
  {}

  class RwArgs {
    const e: Env
    const heap: Heap
    const orig: seq<Iovec>
    const sorted: array<Iovec>
    const aligned: array<Iovec>
    const rbw: array<Iovec>
    const dcSrc: array<Iovec>
    const dcDst: array<Iovec>
    const extraPages: array<nat>
    var alignedCnt: nat
    var alignedProgress: nat
    var rbwCnt: nat
    var rbwProgress: nat
    var dcCnt: nat
    var extraCnt: nat
    var maxEow: nat

    ghost predicate Valid()
      reads this
    {
      && Distinct()
      && Positive(e)
      && aligned.Length == AlignedEstimate(orig, e.max)
      && dcSrc.Length == dcDst.Length == rbw.Length == extraPages.Length == 2 * |orig|
      && sorted.Length == |orig|
      && alignedProgress <= alignedCnt <= aligned.Length
      && rbwProgress <= rbwCnt <= extraCnt <= dcCnt <= dcSrc.Length
    }

    predicate Distinct() {
      && sorted != aligned && sorted != rbw && sorted != dcSrc && sorted != dcDst
      && aligned != rbw && aligned != dcSrc && aligned != dcDst
      && rbw != dcSrc && rbw != dcDst && dcSrc != dcDst
    }

    ghost function Built(): Plan
      reads this, heap, aligned, rbw, dcSrc, dcDst, extraPages
      requires Valid()
    {
      Plan(aligned[..alignedCnt], rbw[..rbwCnt], dcSrc[..dcCnt], dcDst[..dcCnt], extraPages[..extraCnt], |heap.bytes|)
    }

    constructor (e: Env, v: seq<Iovec>, heap: Heap)
      requires Positive(e) && e.top == |heap.bytes|
      ensures this.e == e && this.heap == heap && orig == v && sorted[..] == v
      ensures Valid() && Built() == EmptyPlan(e)
      ensures alignedProgress == rbwProgress == 0
      ensures fresh(sorted) && fresh(aligned) && fresh(rbw) && fresh(dcSrc) && fresh(dcDst) && fresh(extraPages)
    {
      this.e, this.heap, this.orig := e, heap, v;
      var alignedMax, dcMax := EstimateIovcnts(v, e.max);
      sorted := new Iovec[|v|](i requires 0 <= i < |v| => v[i]);
      aligned := new Iovec[alignedMax];
      rbw := new Iovec[dcMax];
      dcSrc := new Iovec[dcMax];
      dcDst := new Iovec[dcMax];
      extraPages := new nat[dcMax];
      alignedCnt, alignedProgress, rbwCnt, rbwProgress, dcCnt, extraCnt, maxEow := 0, 0, 0, 0, 0, 0, 0;
    }

    // Room for one more piece and one more copy; for a range, as many as were estimated for it.
    ghost predicate HasRoom(pieces: nat, copies: nat)
      reads this
    {
      alignedCnt + pieces <= aligned.Length && dcCnt + copies <= dcSrc.Length
    }

    // The scratch page for a partial page: the previous piece's, or a new one (the first part of
    // motr_obj_iovec_partial_page, with motr_obj_iovec_get_page).
    method ScratchPage(page: nat) returns (base: nat, shared: bool)
      requires Valid() && alignedCnt < aligned.Length && extraCnt < extraPages.Length
      requires extraCnt < dcSrc.Length
      modifies `alignedCnt, `extraCnt, heap, aligned, extraPages
      ensures shared == SharesPage(old(Built()), page) && base == ScratchBase(old(Built()), page)
      ensures alignedCnt <= aligned.Length && extraCnt == old(extraCnt) + if shared then 0 else 1
      ensures alignedCnt == old(alignedCnt) + if shared then 0 else 1
      ensures heap.bytes == old(heap.bytes) + if shared then [] else Zeros(e.ps)
      ensures aligned[..alignedCnt] == old(aligned[..alignedCnt]) + if shared then [] else [Iovec(page, e.ps, base)]
      ensures extraPages[..extraCnt] == old(extraPages[..extraCnt]) + if shared then [] else [base]
    {
      shared := alignedCnt != 0 && aligned[alignedCnt - 1].off == page;
      if shared {
        base := aligned[alignedCnt - 1].base;
      } else {
        base := heap.Alloc(e.ps);
        aligned[alignedCnt] := Iovec(page, e.ps, base);
        alignedCnt := alignedCnt + 1;
        extraPages[extraCnt] := base;
        extraCnt := extraCnt + 1;
      }
    }

    // The read-before-write entry of a new page that lies below the object's size.
    method NoteRead(page: nat, base: nat)
      requires rbwCnt < rbw.Length
      modifies `rbwCnt, rbw
      ensures rbwCnt == old(rbwCnt) + 1 && rbw[..rbwCnt] == old(rbw[..rbwCnt]) + [Iovec(page, e.ps, base)]
    {
      rbw[rbwCnt] := Iovec(page, e.ps, base);
      rbwCnt := rbwCnt + 1;
    }

    // The data copy between a caller's area and a scratch page, in the direction of the transfer.
    method NoteCopy(user: Iovec, page: Iovec)
      requires dcCnt < dcSrc.Length == dcDst.Length && dcSrc != dcDst
      modifies `dcCnt, dcSrc, dcDst
      ensures dcCnt == old(dcCnt) + 1
      ensures dcSrc[..dcCnt] == old(dcSrc[..dcCnt]) + [if e.isWrite then user else page]
      ensures dcDst[..dcCnt] == old(dcDst[..dcCnt]) + [if e.isWrite then page else user]
    {
      if e.isWrite {
        dcSrc[dcCnt] := user;
        dcDst[dcCnt] := page;
      } else {
        dcSrc[dcCnt] := page;
        dcDst[dcCnt] := user;
      }
      dcCnt := dcCnt + 1;
    }

    // motr_obj_iovec_partial_page.
    method PartialPage(off: nat, len: nat, base: nat) returns (rc: int)
      requires Valid() && (len > 0 ==> HasRoom(1, 1))
      modifies `alignedCnt, `rbwCnt, `dcCnt, `extraCnt, heap, aligned, rbw, dcSrc, dcDst, extraPages
      ensures Valid() && rc == 0 && Grown(old(heap.bytes), heap.bytes)
      ensures Built() == if len == 0 then old(Built()) else AddPartial(e, old(Built()), off, len, base)
    {
      hide AddPartial, AlignedEstimate, PageOf;
      rc := 0;
      if len == 0 {
        return;
      }
      ghost var p := Built();
      PartialParts(e, p, off, len, base);
      FirstPageNumber(off, e.ps);
      var alignedOff := (off / e.ps) * e.ps;
      var pageBase, shared := ScratchPage(alignedOff);
      if e.isWrite && alignedOff < e.size && !shared {
        NoteRead(alignedOff, pageBase);
      }
      InPage(off, e.ps);
      NoteCopy(Iovec(0, len, base), Iovec(off % e.ps, len, pageBase));
      ghost var q := AddPartial(e, p, off, len, base);
      assert aligned[..alignedCnt] == q.aligned && extraPages[..extraCnt] == q.pages;
      assert rbw[..rbwCnt] == q.rbw;
      assert dcSrc[..dcCnt] == q.src;
      assert dcDst[..dcCnt] == q.dst;
    }

    // motr_obj_iovec_clone.
    method Clone(off: nat, len: nat, base: nat) returns (rc: int)
      requires Valid()
      requires alignedCnt + Ceiling(len, e.max) <= aligned.Length
      modifies `alignedCnt, aligned
      ensures Valid() && rc == if Aligned(off, e.ps) && Aligned(len, e.ps) then 0 else EINVAL
      ensures Built() == if rc == 0 then AddClone(e, old(Built()), Iovec(off, len, base)) else old(Built())
    {
      hide Chunks, AlignedEstimate;
      if off % e.ps != 0 || len % e.ps != 0 {
        return EINVAL;
      }
      ghost var all := Chunks(off, len, base, e.max);
      ghost var before := aligned[..alignedCnt];
      ChunkCount(off, len, base, e.max);
      var off1, base1, lenLeft := off, base, len;
      while off1 < off + len
        invariant off <= off1 <= off + len && lenLeft == off + len - off1 && base1 == base + (off1 - off)
        invariant alignedCnt + |Chunks(off1, lenLeft, base1, e.max)| == |before| + |all|
        invariant alignedCnt <= aligned.Length && alignedProgress <= alignedCnt
        invariant aligned[..alignedCnt] + Chunks(off1, lenLeft, base1, e.max) == before + all
      {
        var len1 := if lenLeft > e.max then e.max else lenLeft;
        FirstChunk(off1, lenLeft, base1, e.max);
        ghost var done, rest := aligned[..alignedCnt], Chunks(off1 + len1, lenLeft - len1, base1 + len1, e.max);
        assert done + ([Iovec(off1, len1, base1)] + rest) == (done + [Iovec(off1, len1, base1)]) + rest;
        aligned[alignedCnt] := Iovec(off1, len1, base1);
        off1, base1, lenLeft := off1 + len1, base1 + len1, lenLeft - len1;
        alignedCnt := alignedCnt + 1;
        assert aligned[..alignedCnt] == done + [Iovec(off1 - len1, len1, base1 - len1)];
      }
      NoChunks(off1, base1, e.max);
      return 0;
    }

    // Room for what was estimated for one range.
    ghost predicate RoomFor(r: Iovec)
      requires e.max > 0
      reads this
    {
      HasRoom(Ceiling(r.len, e.max) + 2, 2)
    }

    // motr_obj_iovec_split_3.
    method Split3(i: nat) returns (rc: int)
      requires Valid() && i < sorted.Length && sorted[i].len > 0 && RoomFor(sorted[i])
      requires !Aligned(sorted[i].off, e.ps) && sorted[i].base + sorted[i].len <= e.top
      modifies `alignedCnt, `rbwCnt, `dcCnt, `extraCnt, heap, aligned, rbw, dcSrc, dcDst, extraPages
      ensures Valid() && Grown(old(heap.bytes), heap.bytes)
      ensures rc == if (sorted[i].End() - 1) / e.ps - sorted[i].off / e.ps < 2 then EINVAL else 0
      ensures Built() == if rc == 0 then AddRange(e, old(Built()), sorted[i]) else old(Built())
    {
      hide AddRange, AddPartial, AddClone, Ceiling, AlignedEstimate, CutOf;
      var r := sorted[i];
      var firstPage, lastPage := r.off / e.ps, (r.off + r.len - 1) / e.ps;
      if lastPage - firstPage < 2 {
        return EINVAL;
      }
      ghost var p := Built();
      QuotientGrows(r.off, r.End() - 1, e.ps);
      ThreePartLengths(e, r);
      CutFits(e, r);
      ghost var first, last := CutOf(e, r).first, CutOf(e, r).last;
      CeilingGrows(last - first, r.len, e.max);
      ThreePartsAdded(e, p, r);

      var len1 := e.ps - r.off % e.ps;
      PartialCounts(e, p, r.off, len1, r.base);
      rc := PartialPage(r.off, len1, r.base);
      assert Built() == AddHead(e, p, r, first);
      var base2, off2 := r.base + len1, r.off + len1;
      var len2;
      if (r.off + r.len) % e.ps != 0 {
        len2 := (lastPage - firstPage - 1) * e.ps;
      } else {
        len2 := (lastPage - firstPage) * e.ps;
      }
      assert Iovec(off2, len2, base2) == Body(r, first, last);
      CloneCounts(e, Built(), Body(r, first, last));
      var ignored := Clone(off2, len2, base2);
      var off3, len3, base3 := off2 + len2, r.len - len1 - len2, base2 + len2;
      if len3 != 0 {
        rc := PartialPage(off3, len3, base3);
      }
    }

    // motr_obj_iovec_split_2.
    method Split2(i: nat) returns (rc: int)
      requires Valid() && i < sorted.Length && sorted[i].len > 0 && RoomFor(sorted[i])
      requires sorted[i].base + sorted[i].len <= e.top
      requires if Aligned(sorted[i].off, e.ps) then !Aligned(sorted[i].len, e.ps)
               else (sorted[i].End() - 1) / e.ps == sorted[i].off / e.ps + 1
      modifies `alignedCnt, `rbwCnt, `dcCnt, `extraCnt, heap, aligned, rbw, dcSrc, dcDst, extraPages
      ensures Valid() && Grown(old(heap.bytes), heap.bytes) && rc == 0
      ensures Built() == AddRange(e, old(Built()), sorted[i])
    {
      hide AddRange, AddPartial, AddClone, Ceiling, AlignedEstimate, CutOf;
      var r := sorted[i];
      ghost var p := Built();
      if Aligned(r.off, e.ps) {
        AlignedParts(e, r);
      } else {
        TwoPageParts(e, r);
      }
      ghost var first, last := CutOf(e, r).first, CutOf(e, r).last;
      CeilingGrows(last - first, r.len, e.max);
      ThreePartsAdded(e, p, r);

      var len1;
      rc := 0;
      if r.off % e.ps == 0 {
        len1 := r.len - (r.off + r.len) % e.ps;
        CloneCounts(e, p, Body(r, first, last));
        var ignored := Clone(r.off, len1, r.base);
      } else {
        len1 := e.ps - r.off % e.ps;
        PartialCounts(e, p, r.off, len1, r.base);
        rc := PartialPage(r.off, len1, r.base);
      }
      var off2, len2, base2 := r.off + len1, r.len - len1, r.base + len1;
      if len2 != e.ps {
        CloneOfNothing(e, Built(), Iovec(off2, 0, base2));
      }
      rc := SecondPart(off2, len2, base2);
    }

    // A whole page, or part of one.
    method SecondPart(off: nat, len: nat, base: nat) returns (rc: int)
      requires Valid() && (if len == e.ps then Aligned(off, e.ps) && Aligned(len, e.ps) else len > 0 ==> HasRoom(1, 1))
      requires len == e.ps ==> alignedCnt + Ceiling(len, e.max) <= aligned.Length
      modifies `alignedCnt, `rbwCnt, `dcCnt, `extraCnt, heap, aligned, rbw, dcSrc, dcDst, extraPages
      ensures Valid() && rc == 0 && Grown(old(heap.bytes), heap.bytes)
      ensures Built() == if len == e.ps then AddClone(e, old(Built()), Iovec(off, len, base))
                         else if len == 0 then old(Built())
                         else AddPartial(e, old(Built()), off, len, base)
    {
      hide AddPartial, AddClone, AlignedEstimate, Ceiling, PageOf;
      if len == e.ps {
        rc := Clone(off, len, base);
      } else {
        rc := PartialPage(off, len, base);
      }
    }

    // motr_obj_iovec_adjust_with_nonaligned_off.
    method AdjustNonalignedOff(i: nat) returns (rc: int)
      requires Valid() && i < sorted.Length && RoomFor(sorted[i])
      requires !Aligned(sorted[i].off, e.ps) && sorted[i].base + sorted[i].len <= e.top
      modifies `alignedCnt, `rbwCnt, `dcCnt, `extraCnt, heap, aligned, rbw, dcSrc, dcDst, extraPages
      ensures Valid() && Grown(old(heap.bytes), heap.bytes) && rc == 0
      ensures Built() == AddRange(e, old(Built()), sorted[i])
    {
      hide AddPartial, AddClone, Ceiling, AlignedEstimate, CutOf;
      var r := sorted[i];
      var firstPage, lastPage := r.off / e.ps, (r.off + r.len - 1) / e.ps;
      if r.len > 0 {
        CutByPageNumbers(e, r);
      }
      if firstPage == lastPage {
        rc := PartialPage(r.off, r.len, r.base);
      } else {
        if r.len == 0 {
          EmptyInPage(r.off, e.ps);
        }
        if lastPage == firstPage + 1 {
          rc := Split2(i);
        } else {
          rc := Split3(i);
        }
      }
    }

    // motr_obj_iovec_adjust_with_aligned_off.
    method AdjustAlignedOff(i: nat) returns (rc: int)
      requires Valid() && i < sorted.Length && RoomFor(sorted[i])
      requires Aligned(sorted[i].off, e.ps) && !Aligned(sorted[i].len, e.ps) && sorted[i].base + sorted[i].len <= e.top
      modifies `alignedCnt, `rbwCnt, `dcCnt, `extraCnt, heap, aligned, rbw, dcSrc, dcDst, extraPages
      ensures Valid() && Grown(old(heap.bytes), heap.bytes) && rc == 0
      ensures Built() == AddRange(e, old(Built()), sorted[i])
    {
      hide AddRange, AddPartial, AddClone, Ceiling, AlignedEstimate, CutOf;
      var r := sorted[i];
      ghost var p := Built();
      if r.len > e.ps {
        rc := Split2(i);
      } else {
        ShortAlignedRange(e, p, r);
        rc := PartialPage(r.off, r.len, r.base);
      }
    }

    // motr_obj_iovec_sort, first half: selection sort by offset, in place.
    method SelectionSort()
      modifies sorted
      ensures multiset(sorted[..]) == multiset(old(sorted[..])) && ByOffset(sorted[..])
    {
      for i := 0 to sorted.Length
        invariant multiset(sorted[..]) == multiset(old(sorted[..]))
        invariant forall j, k :: 0 <= j < i && j < k < sorted.Length ==> sorted[j].off <= sorted[k].off
      {
        var minIdx := MinFrom(i);
        if minIdx == i {
          continue;
        }
        Swap(i, minIdx);
      }
    }

    method MinFrom(i: nat) returns (minIdx: nat)
      requires i < sorted.Length
      ensures i <= minIdx < sorted.Length
      ensures forall k :: i <= k < sorted.Length ==> sorted[minIdx].off <= sorted[k].off
    {
      minIdx := i;
      var minOff := sorted[i].off;
      for j := i + 1 to sorted.Length
        invariant i <= minIdx < sorted.Length && minOff == sorted[minIdx].off
        invariant forall k :: i <= k < j ==> minOff <= sorted[k].off
      {
        if minOff > sorted[j].off {
          minIdx, minOff := j, sorted[j].off;
        }
      }
    }

    method Swap(i: nat, j: nat)
      requires i < sorted.Length && j < sorted.Length
      modifies sorted
      ensures sorted[..] == old(sorted[..])[i := old(sorted[j])][j := old(sorted[i])]
      ensures multiset(sorted[..]) == multiset(old(sorted[..]))
    {
      sorted[i], sorted[j] := sorted[j], sorted[i];
    }

    // motr_obj_iovec_sort, second half: reject overlapping neighbours, note the end of the write.
    method CheckOverlap() returns (rc: int)
      requires sorted.Length > 0 && ByOffset(sorted[..])
      modifies `maxEow
      ensures rc == if NeighboursApart(sorted[..]) then 0 else EINVAL
      ensures maxEow == if e.isWrite && rc == 0 then MaxEnd(sorted[..]) else old(maxEow)
    {
      rc := 0;
      ghost var v := sorted[..];
      var eow := sorted[0].off + sorted[0].len;
      assert v[..1][..0] == [];
      for i := 1 to sorted.Length
        invariant rc == 0 && forall k :: 0 < k < i ==> v[k - 1].End() <= v[k].off
        invariant eow == if e.isWrite then MaxEnd(v[..i]) else v[0].End()
      {
        var off, len := sorted[i - 1].off, sorted[i - 1].len;
        if sorted[i].off < off + len {
          rc := EINVAL;
          break;
        }
        assert v[..i + 1][..i] == v[..i];
        if e.isWrite && sorted[i].off + sorted[i].len > eow {
          eow := sorted[i].off + sorted[i].len;
        }
      }
      if e.isWrite && rc == 0 {
        assert v[..|v|] == v;
        maxEow := eow;
      }
    }

    // motr_obj_iovec_sort.
    method Sort() returns (rc: int)
      requires Valid() && sorted.Length > 0 && sorted[..] == orig
      modifies sorted, `maxEow
      ensures Valid() && Built() == old(Built())
      ensures multiset(sorted[..]) == multiset(orig) && ByOffset(sorted[..])
      ensures rc == if Ordered(sorted[..]) then 0 else EINVAL
      ensures e.isWrite && rc == 0 ==> maxEow == MaxEnd(orig)
    {
      SelectionSort();
      rc := CheckOverlap();
      NeighboursApartIsOrdered(sorted[..]);
      MaxEndOfPermutation(sorted[..], orig);
      MaxEndOfPermutation(orig, sorted[..]);
    }

    // motr_obj_data_copy.
    method DataCopy()
      requires Valid() && CopiesFit(Built().src, Built().dst, |heap.bytes|)
      modifies heap
      ensures heap.bytes == CopyAll(Built().src, Built().dst, old(heap.bytes))
    {
      hide CopyAll, CopiesFit, AlignedEstimate, Blit;
      ghost var src, dst, m := dcSrc[..dcCnt], dcDst[..dcCnt], heap.bytes;
      CopyStart(src, dst, m);
      for i := 0 to dcCnt
        invariant CopiesFit(src[..i], dst[..i], |m|)
        invariant heap.bytes == CopyAll(src[..i], dst[..i], m)
      {
        CopyStep(src, dst, m, i);
        heap.Copy(dcDst[i].base + dcDst[i].off, dcSrc[i].base + dcSrc[i].off, dcDst[i].len);
      }
      assert src[..dcCnt] == src && dst[..dcCnt] == dst;
    }

    // The next copy into the page at `base`.
    method FirstCopyFrom(cursor: nat, base: nat) returns (j: nat)
      requires cursor <= dcCnt <= dcDst.Length
      requires exists d :: cursor <= d < dcCnt && dcDst[d].base == base
      ensures cursor <= j < dcCnt && dcDst[j].base == base
      ensures forall d :: cursor <= d < j ==> dcDst[d].base != base
    {
      j := cursor;
      while j < dcCnt
        invariant cursor <= j <= dcCnt
        invariant forall d :: cursor <= d < j ==> dcDst[d].base != base
      {
        if base == dcDst[j].base {
          break;
        }
        j := j + 1;
      }
    }

    // The length of the run of adjoining copies that starts the page at copy `j`.
    method RunLength(j: nat) returns (len: nat)
      requires dcCnt <= dcDst.Length && j < dcCnt && dcDst[j].off == 0
      requires ScanReady([], dcDst[..dcCnt], e.ps)
      requires forall d :: 0 <= d < j ==> dcDst[d].base != dcDst[j].base
      ensures len == e.ps <==> PageCovered(dcDst[..dcCnt], dcDst[j].base, e.ps)
    {
      ghost var dst, base := dcDst[..dcCnt], dcDst[j].base;
      len := dcDst[j].len;
      assert OnPage(dst[j], base, 0);
      var k := j + 1;
      while k < dcCnt
        invariant j < k <= dcCnt && dst[k - 1].base == base
        invariant len == dst[k - 1].off + dst[k - 1].len
        invariant forall x :: 0 <= x < len ==> CoveredAt(dst, base, x)
      {
        if len == e.ps || dcDst[j].base != dcDst[k].base || dcDst[k].off > len {
          break;
        }
        assert CopyBefore(dst[k - 1], dst[k]);
        forall x | len <= x < len + dst[k].len ensures CoveredAt(dst, base, x) {
          assert OnPage(dst[k], base, x);
        }
        len := len + dcDst[k].len;
        k := k + 1;
      }
      if len != e.ps {
        RunEnds(dst, e.ps, base, j, k, len);
      }
    }

    // One page of the scan: where its copies start, and whether the scan goes on.
    method ScanPage(i: nat, cursor: nat, ghost r: seq<Iovec>) returns (j: nat, more: bool)
      requires dcCnt <= dcDst.Length && i < rbw.Length && i < |r| && rbw[i] == r[i] && cursor <= dcCnt
      requires rbw != dcDst && ScanReady(r, dcDst[..dcCnt], e.ps)
      requires forall d :: 0 <= d < cursor ==> dcDst[d].base < r[i].base
      requires forall k :: 0 <= k < i ==> CoveredAt(dcDst[..dcCnt], r[k].base, 0)
      modifies rbw
      ensures j < dcCnt && (i + 1 < |r| ==> forall d :: 0 <= d < j ==> dcDst[d].base < r[i + 1].base)
      ensures more <==> CoveredAt(dcDst[..dcCnt], r[i].base, 0)
      ensures rbw[..] == if more then old(rbw[..])[i := Elide(r, dcDst[..dcCnt], e.ps)[i]] else old(rbw[..])
    {
      hide Elide, CoveredAt, PageCovered, ScanReady;
      ghost var dst := dcDst[..dcCnt];
      ScanFinds(r, dst, e.ps, i, cursor);
      j := FirstCopyFrom(cursor, rbw[i].base);
      ScanAdvances(r, dst, e.ps, i, j);
      FirstCopyDecides(dst, e.ps, r[i].base, j);
      more := dcDst[j].off == 0;
      if more {
        var len := RunLength(j);
        ElideStep(r, dst, e.ps, i);
        if len == e.ps {
          rbw[i] := rbw[i].(off := 0, len := 0);
        }
      }
    }

    // motr_obj_read_before_write_optimise.
    method ReadBeforeWriteOptimise()
      requires Valid() && ScanReady(rbw[..rbwCnt], dcDst[..dcCnt], e.ps)
      modifies rbw
      ensures Valid() && rbw[..rbwCnt] == Elide(old(rbw[..rbwCnt]), dcDst[..dcCnt], e.ps)
      ensures Built() == old(Built()).(rbw := rbw[..rbwCnt])
    {
      hide Elide, Elidable, CoveredAt, ScanReady, AlignedEstimate;
      ghost var r, dst, elided := rbw[..rbwCnt], dcDst[..dcCnt], Elide(rbw[..rbwCnt], dcDst[..dcCnt], e.ps);
      var cursor: nat := 0;
      for i := 0 to rbwCnt
        invariant cursor <= dcCnt
        invariant i < rbwCnt ==> forall d :: 0 <= d < cursor ==> dcDst[d].base < r[i].base
        invariant forall k :: 0 <= k < i ==> CoveredAt(dst, r[k].base, 0)
        invariant forall k :: 0 <= k < rbwCnt ==> rbw[k] == if k < i then elided[k] else r[k]
      {
        var j, more := ScanPage(i, cursor, r);
        if !more {
          NoneReached(r, dst, e.ps, i);
          break;
        }
        cursor := j;
      }
    }

    lemma BuiltTally()
      requires Valid()
      ensures Tally(Built())
    {}

    // motr_obj_iovec_adjust.
    method Adjust() returns (rc: int)
      requires Valid() && Built() == EmptyPlan(e) && multiset(sorted[..]) == multiset(orig)
      requires forall k :: 0 <= k < sorted.Length ==> sorted[k].base + sorted[k].len <= e.top
      modifies `alignedCnt, `rbwCnt, `dcCnt, `extraCnt, heap, aligned, rbw, dcSrc, dcDst, extraPages
      ensures Valid() && Grown(old(heap.bytes), heap.bytes) && rc == 0
      ensures Built() == Align(e, sorted[..])
    {
      hide AddRange, AddClone, AlignedEstimate;
      rc := 0;
      ghost var v := sorted[..];
      EstimateOfPermutation(v, orig, e.max);
      for i := 0 to sorted.Length
        invariant Valid() && Grown(old(heap.bytes), heap.bytes) && rc == 0
        invariant sorted[..] == v
        invariant Built() == Align(e, v[..i])
        invariant alignedCnt <= AlignedEstimate(v[..i], e.max) && dcCnt <= 2 * i
      {
        ghost var p := Built();
        EstimateGrows(v, i, e.max);
        BuiltTally();
        RangeCounts(e, p, sorted[i]);
        AlignSnoc(e, v, i);
        var off, len, base := sorted[i].off, sorted[i].len, sorted[i].base;
        if off % e.ps == 0 && len % e.ps == 0 {
          WholeRange(e, p, sorted[i]);
          var ignored := Clone(off, len, base);
          continue;
        }
        if off % e.ps == 0 && len % e.ps != 0 {
          rc := AdjustAlignedOff(i);
          if rc < 0 {
            break;
          }
          continue;
        }
        rc := AdjustNonalignedOff(i);
        if rc < 0 {
          break;
        }
      }
      assert v[..|v|] == v;
    }
  }

  // One page of the scan: its copies start at or after the cursor, ...
  lemma ScanFinds(r: seq<Iovec>, dst: seq<Iovec>, ps: nat, i: nat, cursor: nat)
    requires ScanReady(r, dst, ps) && i < |r| && cursor <= |dst|
    requires forall d :: 0 <= d < cursor ==> dst[d].base < r[i].base
    ensures exists d :: cursor <= d < |dst| && dst[d].base == r[i].base
    ensures ScanReady([], dst, ps)
  {
    assert HasCopy(dst, r[i].base);
    var d :| 0 <= d < |dst| && dst[d].base == r[i].base;
    assert cursor <= d;
  }

  // ... all before them belong to earlier pages, ...
  lemma ScanAdvances(r: seq<Iovec>, dst: seq<Iovec>, ps: nat, i: nat, j: nat)
    requires ScanReady(r, dst, ps) && i < |r| && j < |dst| && dst[j].base == r[i].base
    ensures i + 1 < |r| ==> forall d :: 0 <= d < j ==> dst[d].base < r[i + 1].base
  {}

  // ... and the page is elided when they cover it.
  lemma ElideStep(r: seq<Iovec>, dst: seq<Iovec>, ps: nat, i: nat)
    requires i < |r| && forall k :: 0 <= k <= i ==> CoveredAt(dst, r[k].base, 0)
    ensures Elide(r, dst, ps)[i] == if PageCovered(dst, r[i].base, ps) then Iovec(0, 0, r[i].base) else r[i]
  {}

  // Once the scan gives up, nothing further is elided.
  lemma NoneReached(r: seq<Iovec>, dst: seq<Iovec>, ps: nat, i: nat)
    requires i < |r| && !CoveredAt(dst, r[i].base, 0)
    ensures forall k :: i <= k < |r| ==> Elide(r, dst, ps)[k] == r[k]
  {}

  lemma CopyStart(src: seq<Iovec>, dst: seq<Iovec>, m: seq<byte>)
    requires CopiesFit(src, dst, |m|)
    ensures CopiesFit(src[..0], dst[..0], |m|) && CopyAll(src[..0], dst[..0], m) == m
  {}

  lemma CopyStep(src: seq<Iovec>, dst: seq<Iovec>, m: seq<byte>, i: nat)
    requires CopiesFit(src, dst, |m|) && i < |dst|
    ensures CopiesFit(src[..i], dst[..i], |m|) && CopiesFit(src[..i + 1], dst[..i + 1], |m|)
    ensures CopyFits(src[i], dst[i], |m|)
    ensures CopyAll(src[..i + 1], dst[..i + 1], m) == CopyOne(src[i], dst[i], CopyAll(src[..i], dst[..i], m))
  {
    assert src[..i + 1] == src[..i] + [src[i]] && dst[..i + 1] == dst[..i] + [dst[i]];
    var s, d := src[..i + 1], dst[..i + 1];
    forall k | 0 <= k < i + 1 ensures CopyFits(s[k], d[k], |m|) {
      assert CopyFits(src[k], dst[k], |m|);
    }
    CopySnoc(src[..i], dst[..i], src[i], dst[i], m);
  }

  lemma PartialParts(e: Env, p: Plan, off: nat, len: nat, base: nat)
    requires Positive(e)
    ensures var q, page := AddPartial(e, p, off, len, base), PageOf(off, e.ps);
            var shared, b := SharesPage(p, page), ScratchBase(p, page);
            var v, user, d := Iovec(page, e.ps, b), Iovec(0, len, base), Iovec(off - page, len, b);
            && q.aligned == p.aligned + (if shared then [] else [v])
            && q.pages == p.pages + (if shared then [] else [b])
            && q.rbw == p.rbw + (if e.isWrite && page < e.size && !shared then [v] else [])
            && q.src == p.src + [if e.isWrite then user else d]
            && q.dst == p.dst + [if e.isWrite then d else user]
            && q.brk == p.brk + if shared then 0 else e.ps
  {}

  lemma AlignSnoc(e: Env, v: seq<Iovec>, i: nat)
    requires Positive(e) && i < |v|
    ensures Align(e, v[..i + 1]) == AddRange(e, Align(e, v[..i]), v[i])
  {
    assert v[..i + 1][..i] == v[..i];
  }

  lemma EstimateGrows(v: seq<Iovec>, i: nat, max: nat)
    requires max > 0 && i < |v|
    ensures AlignedEstimate(v[..i + 1], max) == AlignedEstimate(v[..i], max) + Ceiling(v[i].len, max) + 2
    ensures AlignedEstimate(v[..i + 1], max) <= AlignedEstimate(v, max)
    decreases |v| - i
  {
    assert v[..i + 1][..i] == v[..i];
    if i + 1 < |v| {
      EstimateGrows(v, i + 1, max);
      assert Ceiling(v[i + 1].len, max) >= 0;
    } else {
      assert v[..i + 1] == v;
    }
  }

  lemma WholeRange(e: Env, p: Plan, r: Iovec)
    requires Positive(e) && Aligned(r.off, e.ps) && Aligned(r.len, e.ps)
    ensures AddRange(e, p, r) == AddClone(e, p, r)
  {
    if r.len == 0 {
      CloneOfNothing(e, p, r);
    } else {
      AlignedSum(r.off, r.len, e.ps);
      PageOfWithin(r.End(), r.End(), e.ps);
      assert Body(r, r.off, r.End()) == r;
    }
  }

  // The last page of an empty range is not another one than the first.
  lemma EmptyInPage(off: nat, ps: nat)
    requires ps > 0 && !Aligned(off, ps)
    ensures (off - 1) / ps == off / ps
  {
    var q, r := off / ps, off % ps;
    assert off == q * ps + r;
    Quotient(off - 1, q, r - 1, ps);
  }

  lemma ShortAlignedRange(e: Env, p: Plan, r: Iovec)
    requires Positive(e) && Aligned(r.off, e.ps) && !Aligned(r.len, e.ps) && r.len <= e.ps
    ensures r.len > 0 && AddRange(e, p, r) == AddPartial(e, p, r.off, r.len, r.base)
  {
    hide AddPartial;
    Quotient(0, 0, 0, e.ps);
    Quotient(e.ps, 1, 0, e.ps);
    PageOfWithin(r.End(), r.off, e.ps);
    AlignedParts(e, r);
    CloneOfNothing(e, p, Body(r, r.off, r.off));
  }
}
