// Object reads and writes as chains of driver operations: the object, the operation that holds the
// chain, the post-processing steps that extend it, and the polling loop that drives it.
module ObjIo {
  import opened Errors
  import opened Transfers
  import opened Paging
  import opened Alignment
  import opened Decomposition
  import opened WriteRefinement
  import opened ReadElision
  import opened ReadRefinement
  import opened WriteChain
  import opened WriteOutcome
  import opened ObjRwArgs
  import opened ChainSteps
  import opened MotrClient

  // What a post-processing step returns.
  const DRV_OP_NEXT := 0
  const DRV_OP_FINAL := 1

  datatype RetState = OnFly | Completed | Failed

  // An open object: its bytes in the page store, the size the handle holds, and the size record
  // in the metadata key-value set.
  class MotrObject {
    const ps: nat
    const max: nat
    var data: seq<byte>
    var size: nat
    var stored: nat

    ghost predicate Valid()
      reads this
    {
      && 0 < ps <= max && Aligned(max, ps) && Aligned(|data|, ps)
      && ZeroPast(data, size) && stored == size
    }

    constructor (ps: nat, max: nat, capacity: nat)
      requires 0 < ps <= max && Aligned(max, ps) && Aligned(capacity, ps)
      ensures Valid() && data == Zeros(capacity) && size == 0 && this.ps == ps && this.max == max
    {
      this.ps, this.max, data, size, stored := ps, max, Zeros(capacity), 0, 0;
    }
  }

  // The number of entries a batch takes, found entry by entry.
  lemma BatchSizeStep(v: seq<Iovec>, i: nat, room: nat)
    requires i < |v|
    ensures BatchSize(v[i..], room) == if v[i].len > room then 0 else 1 + BatchSize(v[i + 1..], room - v[i].len)
  {}

  // The first range with bytes in it makes a piece.
  lemma {:induction false} PiecesExactlyWhen(e: Env, v: seq<Iovec>)
    requires ValidEnv(e) && forall k :: 0 <= k < |v| ==> v[k].base + v[k].len <= e.top
    ensures Align(e, v).aligned == [] <==> forall k :: 0 <= k < |v| ==> v[k].len == 0
    ensures Align(e, v).aligned == [] ==> Align(e, v).rbw == []
  {
    if v != [] {
      var init, r := v[..|v| - 1], v[|v| - 1];
      assert forall k :: 0 <= k < |init| ==> init[k] == v[k];
      PiecesExactlyWhen(e, init);
      if r.len > 0 {
        RangeMakesPiece(e, Align(e, init), r);
        assert v[|v| - 1].len != 0;
      }
    }
  }

  lemma RangeMakesPiece(e: Env, p: Plan, r: Iovec)
    requires ValidEnv(e) && r.len > 0 && r.base + r.len <= e.top
    ensures AddRange(e, p, r).aligned != []
  {}

  lemma NothingReadBack(e: Env, v: seq<Iovec>)
    requires ValidEnv(e) && !e.isWrite
    ensures Align(e, v).rbw == []
  {}

  lemma BuffersPermute(v: seq<Iovec>, w: seq<Iovec>)
    requires multiset(v) == multiset(w) && BuffersDisjoint(v)
    ensures BuffersDisjoint(w)
  {
    forall j, k | 0 <= j < k < |w| ensures Disjoint(w[j].base, w[j].len, w[k].base, w[k].len) {
      assert w[j] in multiset(w) && w[j] in multiset(v);
      assert w[k] in multiset(w) && w[k] in multiset(v);
      if w[j] == w[k] {
        TwiceInMultiset(w, j, k);
        var a, b := TwiceInSequence(v, w[j]);
      } else {
        var a :| 0 <= a < |v| && v[a] == w[j];
        var b :| 0 <= b < |v| && v[b] == w[k];
        assert if a < b then Disjoint(v[a].base, v[a].len, v[b].base, v[b].len)
               else Disjoint(v[b].base, v[b].len, v[a].base, v[a].len);
      }
    }
  }

  ghost predicate Numbered(chain: seq<DriverOp>) {
    forall k :: 0 <= k < |chain| ==> chain[k].id == k
  }

  ghost function Below(n: nat): (s: set<nat>)
    ensures forall k :: k in s ==> k < n
  {
    if n == 0 then {} else Below(n - 1) + {n - 1}
  }

  // One read or write (struct mio_op) with its chain of driver operations.
  class MioOp {
    const obj: MotrObject
    const heap: Heap
    const motr: Motr
    var args: RwArgs?
    var chain: seq<DriverOp>
    var rc: int
    var nextId: nat
    ghost var live: set<nat>    // driver operations allocated and not freed
    ghost var ran: seq<nat>     // those post-processed, in order
    ghost var q: Request

    constructor (obj: MotrObject, heap: Heap, motr: Motr)
      ensures this.obj == obj && this.heap == heap && this.motr == motr && Idle() && live == {}
    {
      this.obj, this.heap, this.motr, args, chain, rc, nextId := obj, heap, motr, null, [], 0, 0;
      live, ran := {}, [];
      q := Request(Env(0, 0, 0, false, 0), [], [], []);
    }

    ghost predicate Idle()
      reads this
    {
      chain == [] && ran == [] && Tracked()
    }

    // The operations of the chain are exactly the live ones, each once.
    ghost predicate Tracked()
      reads this
    {
      nextId == |chain| && Numbered(chain) && live == Below(|chain|)
    }

    ghost function View(): (w: View)
      requires args != null
      reads this, obj, heap, args
    {
      ChainSteps.View.View(heap.bytes, obj.data, obj.size, obj.stored, args.rbwProgress, args.alignedProgress, chain)
    }

    ghost predicate InStep()
      reads this
    {
      |ran| + 1 == |chain| && RanInOrder()
    }

    ghost predicate RanInOrder()
      reads this
    {
      |ran| <= |chain| && forall k :: 0 <= k < |ran| ==> ran[k] == chain[k].id
    }

    ghost function Repr(): set<object>
      reads this
    {
      if args == null then {} else {args, args.aligned, args.rbw, args.dcSrc, args.dcDst}
    }

    // The arguments hold the plan for the request, with `back` as what is to be read back.
    ghost predicate Holding(back: seq<Iovec>)
      reads this, Repr()
    {
      && args != null && args.Valid() && args.e == q.e && args.heap == heap && Good(q)
      && args.aligned[..args.alignedCnt] == Pieces(q) && args.rbw[..args.rbwCnt] == back
      && args.dcSrc[..args.dcCnt] == Align(q.e, q.v).src && args.dcDst[..args.dcCnt] == Align(q.e, q.v).dst
      && (q.e.isWrite ==> args.maxEow == MaxEnd(q.v))
    }

    ghost predicate Serves()
      reads this, Repr()
    {
      Good(q) && Holding(if q.e.isWrite then ReadList(q) else [])
    }

    // mio_driver_op_add.
    method DriverOpAdd(opcode: Opcode, iovs: seq<Iovec>, pp: PostProc)
      requires Tracked()
      modifies `chain, `nextId, `live
      ensures Tracked() && chain == old(chain) + [DriverOp(old(nextId), opcode, iovs, pp)]
    {
      chain := chain + [DriverOp(nextId, opcode, iovs, pp)];
      live := live + {nextId};
      nextId := nextId + 1;
    }

    // How far the entries go that fit one operation.
    method BatchEnd(iovs: array<Iovec>, iovcnt: nat, cursor: nat) returns (i: nat)
      requires cursor <= iovcnt <= iovs.Length
      ensures i == cursor + |Batch(iovs[..iovcnt], cursor, obj.max)|
    {
      ghost var v := iovs[..iovcnt];
      var ioSize := 0;
      i := cursor;
      while i < iovcnt
        invariant cursor <= i <= iovcnt && ioSize <= obj.max
        invariant BatchSize(v[cursor..], obj.max) == i - cursor + BatchSize(v[i..], obj.max - ioSize)
      {
        BatchSizeStep(v, i, obj.max - ioSize);
        if ioSize + iovs[i].len > obj.max {
          break;
        }
        ioSize := ioSize + iovs[i].len;
        i := i + 1;
      }
    }

    // motr_obj_rw_aligned: one operation for as many entries as fit, from the cursor on.
    method RwAligned(iovs: array<Iovec>, iovcnt: nat, cursor: nat, opcode: Opcode, pp: PostProc)
      returns (r: int, next: nat)
      requires Tracked() && cursor <= iovcnt <= iovs.Length
      modifies `chain, `nextId, `live
      ensures Tracked()
      ensures next == cursor + |Batch(iovs[..iovcnt], cursor, obj.max)|
      ensures r == if next == cursor then E2BIG else 0
      ensures chain == if r < 0 then old(chain)
                       else old(chain) + [DriverOp(old(nextId), opcode, Batch(iovs[..iovcnt], cursor, obj.max), pp)]
    {
      next := BatchEnd(iovs, iovcnt, cursor);
      if next == cursor {
        return E2BIG, next;
      }
      assert Batch(iovs[..iovcnt], cursor, obj.max) == iovs[cursor..next];
      DriverOpAdd(opcode, iovs[cursor..next], pp);
      return 0, next;
    }

    // ----- starting -----

    // The state a chain starts from: the plan made, the ranges in order and apart.
    ghost predicate Planned(back: seq<Iovec>)
      reads this, obj, heap, Repr()
    {
      && Holding(back) && Tracked() && chain == [] && ran == []
      && args.rbwProgress == 0 && args.alignedProgress == 0
      && q.mem == heap.bytes && q.store == obj.data && q.e.size == obj.size == obj.stored && q.e.max == obj.max
    }

    // What the request is made of.
    ghost predicate Asked(v: seq<Iovec>, isWrite: bool, memory: seq<byte>)
      reads this, obj, heap, Repr()
    {
      && q.e == Env(obj.ps, obj.max, obj.size, isWrite, |memory|) && Grown(memory, q.mem) && q.store == obj.data
      && multiset(q.v) == multiset(v) && ByOffset(q.v)
    }

    // motr_obj_rw_args_alloc and motr_obj_iovec_sort.
    method AllocAndSort(v: seq<Iovec>, isWrite: bool) returns (r: int)
      requires obj.Valid() && v != []
      modifies `args, `q
      ensures args != null && fresh(Repr()) && fresh(args.sorted) && fresh(args.extraPages)
      ensures args.Valid() && args.heap == heap && args.orig == v && args.Built() == EmptyPlan(args.e)
      ensures args.rbwProgress == args.alignedProgress == 0
      ensures q == Request(Env(obj.ps, obj.max, obj.size, isWrite, |heap.bytes|), args.sorted[..], heap.bytes, obj.data)
      ensures args.e == q.e && multiset(q.v) == multiset(v) && ByOffset(q.v)
      ensures r == if Ordered(q.v) then 0 else EINVAL
      ensures isWrite && r == 0 ==> args.maxEow == MaxEnd(q.v)
    {
      hide AlignedEstimate, MaxEnd, Ordered, ByOffset;
      var e := Env(obj.ps, obj.max, obj.size, isWrite, |heap.bytes|);
      var a := new RwArgs(e, v, heap);
      args := a;
      r := a.Sort();
      q := Request(e, a.sorted[..], heap.bytes, obj.data);
      MaxEndOfPermutation(q.v, v);
      MaxEndOfPermutation(v, q.v);
    }

    // motr_obj_rw_args_alloc, motr_obj_iovec_sort and motr_obj_iovec_adjust; a read goes on when
    // ranges overlap.
    method SortAndAdjust(v: seq<Iovec>, isWrite: bool) returns (r: int)
      requires obj.Valid() && Idle() && v != []
      requires forall k :: 0 <= k < |v| ==> v[k].Fits(|heap.bytes|, |obj.data|)
      modifies `args, `q, heap
      ensures args != null && fresh(Repr()) && Asked(v, isWrite, old(heap.bytes)) && q.mem == heap.bytes
      ensures args.Valid() && args.alignedProgress == 0
      ensures ValidEnv(q.e) && forall k :: 0 <= k < |q.v| ==> q.v[k].base + q.v[k].len <= q.e.top
      ensures r == 0 ==> args.aligned[..args.alignedCnt] == Pieces(q)
      ensures isWrite || r == 0
      ensures isWrite ==> r == if Ordered(q.v) then 0 else EINVAL
      ensures r == 0 && (isWrite || BuffersDisjoint(v)) ==> Planned(Align(q.e, q.v).rbw)
    {
      hide Align, AlignedEstimate, MaxEnd, Good, Ordered, ByOffset, BuffersDisjoint;
      r := AllocAndSort(v, isWrite);
      SortedFits(v, q.v, |heap.bytes|, |obj.data|);
      if isWrite && r < 0 {
        return;
      }
      r := AdjustSorted();
      if isWrite || BuffersDisjoint(v) {
        SortedIsGood(q, v, old(heap.bytes));
      }
    }

    // motr_obj_iovec_adjust.
    method AdjustSorted() returns (r: int)
      requires args != null && args.Valid() && args.heap == heap && args.Built() == EmptyPlan(args.e) && args.e == q.e
      requires q.v == args.sorted[..] && multiset(q.v) == multiset(args.orig)
      requires forall k :: 0 <= k < |q.v| ==> q.v[k].base + q.v[k].len <= q.e.top
      modifies `q, heap, args`alignedCnt, args`rbwCnt, args`dcCnt, args`extraCnt,
               args.aligned, args.rbw, args.dcSrc, args.dcDst, args.extraPages
      ensures r == 0 && args.Valid() && q == old(q).(mem := heap.bytes) && Grown(old(heap.bytes), heap.bytes)
      ensures args.Built() == Align(q.e, q.v)
    {
      hide Align, AlignedEstimate;
      r := args.Adjust();
      q := q.(mem := heap.bytes);
    }

    // Between two operations.
    ghost predicate Stepping()
      reads this, obj, heap, Repr()
    {
      && Serves() && Tracked() && |ran| == |chain| && RanInOrder() && q.e.max == obj.max
      && History(q, View()) && Unharmed(q, heap.bytes, obj.data)
    }

    // The state after an operation was launched.
    ghost predicate Waiting()
      reads this, obj, heap, Repr()
    {
      Serves() && Tracked() && InStep() && q.e.max == obj.max && Running(q, View(), false) && Unharmed(q, heap.bytes, obj.data)
    }

    // The chain is complete, every operation of it post-processed once, in launch order.
    ghost predicate Ended()
      reads this, obj, heap, Repr()
    {
      && args != null && Tracked() && |ran| == |chain| && RanInOrder()
      && Finished(q, View()) && Unharmed(q, heap.bytes, obj.data)
    }

    // The next batch of pieces.
    method MovePieces() returns (r: int)
      requires Stepping() && SizesKept(q, View())
      requires if q.e.isWrite then args.rbwProgress == |ReadList(q)| && WritesAt(q, args.alignedProgress, heap.bytes, obj.data)
               else GathersAt(q, args.alignedProgress, heap.bytes) && obj.data == q.store
      modifies `chain, `nextId, `live, args`alignedProgress
      ensures r == if old(args.alignedProgress) == |Pieces(q)| then E2BIG else 0
      ensures r < 0 ==> Stepping() && chain == old(chain) && args.alignedProgress == old(args.alignedProgress)
      ensures r == 0 ==> Waiting() && old(args.alignedProgress) < args.alignedProgress && View().Head().pp == DataPP(q)
    {
      hide Running, History, AlignedEstimate, WriteRequest, ReadRequest, Unharmed, Batch, Align, ReadList, Pieces, Sorted,
           WritesAt, ReadsAt, GathersAt, Below, Numbered;
      RequestEnv(q);
      ghost var w := View();
      var next;
      r, next := RwAligned(args.aligned, args.alignedCnt, args.alignedProgress,
                           if args.e.isWrite then Write else Read, if args.e.isWrite then WritePP else ReadPP);
      args.alignedProgress := next;
      if w.moved < |Pieces(q)| {
        PiecesLaunched(q, w, old(nextId));
        BatchMoves(q, w.moved);
      } else {
        BatchAtEnd(Pieces(q), obj.max);
      }
    }

    // The next batch of pages to read back.
    method ReadPages(opcode: Opcode) returns (r: int)
      requires Stepping() && SizesKept(q, View()) && q.e.isWrite && args.alignedProgress == 0
      requires ReadsAt(q, args.rbwProgress, heap.bytes, obj.data) && args.rbwProgress < args.rbwCnt
      requires opcode == if args.rbwProgress == 0 then Read else Write
      modifies `chain, `nextId, `live, args`rbwProgress
      ensures r == 0 && Waiting() && old(args.rbwProgress) < args.rbwProgress && View().Head().pp == ReadBeforeWritePP
    {
      hide Running, History, AlignedEstimate, WriteRequest, ReadRequest, Unharmed, Batch, Align, ReadList, Pieces, Sorted,
           WritesAt, ReadsAt, GathersAt, Below, Numbered;
      RequestEnv(q);
      ghost var w := View();
      ReadsLaunched(q, w, nextId);
      var next;
      r, next := RwAligned(args.rbw, args.rbwCnt, args.rbwProgress, opcode, ReadBeforeWritePP);
      args.rbwProgress := next;
    }

    // The data copies, and the first pieces.
    method CopyAndWrite() returns (r: int)
      requires Stepping() && SizesKept(q, View()) && q.e.isWrite && args.alignedProgress == 0
      requires args.rbwProgress == args.rbwCnt && ReadsAt(q, args.rbwProgress, heap.bytes, obj.data)
      modifies `chain, `nextId, `live, heap, args`alignedProgress
      ensures |heap.bytes| == |old(heap.bytes)| && MemoryKept(q, heap.bytes)
      ensures r == if Pieces(q) == [] then E2BIG else 0
      ensures r < 0 ==> chain == old(chain)
      ensures r == 0 ==> Waiting() && 0 < args.alignedProgress && View().Head().pp == WritePP
    {
      hide ReadsAt, WritesAt, History, AlignedEstimate, WriteRequest, ReadRequest, Unharmed, CopiesFit, CopyAll,
           Align, ReadList, Pieces, Sorted, Below, Numbered;
      RequestEnv(q);
      CopyStepStartsWrites(q, heap.bytes, obj.data);
      ghost var w := View();
      CopiesHarmNothing(q, w.mem, w.store);
      args.DataCopy();
      HistoryKept(q, w, View());
      r := MovePieces();
    }

    // The operation at the head is being post-processed.
    ghost method NoteRan()
      requires Tracked() && InStep()
      modifies `ran
      ensures Tracked() && |ran| == |chain| && RanInOrder()
    {
      ran := ran + [|chain| - 1];
    }

    // motr_obj_write_pp.
    method WritePostProc() returns (r: int)
      requires Serves() && Tracked() && InStep() && q.e.max == obj.max && Unharmed(q, heap.bytes, obj.data)
      requires Running(q, View(), true) && View().Head().pp == WritePP
      modifies `chain, `nextId, `live, `ran, args`alignedProgress, obj`size
      ensures r == DRV_OP_NEXT || r == DRV_OP_FINAL
      ensures |heap.bytes| == |old(heap.bytes)|
      ensures r == DRV_OP_NEXT ==> Waiting() && Remaining(q, View()) < old(Remaining(q, View()))
      ensures r == DRV_OP_FINAL ==> Ended()
    {
      hide Running, History, AlignedEstimate, WriteRequest, ReadRequest, Unharmed, Finished, Align, ReadList,
           Pieces, Sorted, Numbered, Below, ValidEnv, MaxEnd, CopiesFit, CopyAll, WritesAt, ReadsAt, GathersAt, Remaining;
      AfterWrite(q, View());
      NoteRan();
      if args.alignedProgress != args.alignedCnt {
        r := MovePieces();
        PiecesRemaining(q, View());
        assert r == DRV_OP_NEXT;
      } else if args.maxEow <= obj.size {
        WriteFinished(q, View());
        r := DRV_OP_FINAL;
      } else {
        PutSizeLaunched(q, View(), nextId);
        obj.size := args.maxEow;
        DriverOpAdd(PutSize(args.maxEow), [], AttrsPP);
        PiecesRemaining(q, View());
        r := DRV_OP_NEXT;
      }
    }

    // motr_obj_read_before_write_pp.
    method ReadBeforeWritePostProc() returns (r: int)
      requires Serves() && Tracked() && InStep() && q.e.max == obj.max && Unharmed(q, heap.bytes, obj.data)
      requires Running(q, View(), true) && View().Head().pp == ReadBeforeWritePP
      modifies `chain, `nextId, `live, `ran, heap, args`alignedProgress, args`rbwProgress
      ensures |heap.bytes| == |old(heap.bytes)|
      ensures r == DRV_OP_NEXT && Waiting() && Remaining(q, View()) < old(Remaining(q, View()))
    {
      hide Running, History, AlignedEstimate, WriteRequest, ReadRequest, Unharmed, Finished, Align, ReadList,
           Pieces, Sorted, Numbered, Below, ValidEnv, MaxEnd, CopiesFit, CopyAll, WritesAt, ReadsAt, GathersAt, Remaining;
      AfterReadBack(q, View());
      NoteRan();
      if args.rbwProgress == args.rbwCnt {
        r := CopyAndWrite();
      } else {
        r := ReadPages(Write);
      }
      PiecesRemaining(q, View());
    }

    // motr_obj_read_pp.
    method ReadPostProc() returns (r: int)
      requires Serves() && Tracked() && InStep() && q.e.max == obj.max && Unharmed(q, heap.bytes, obj.data)
      requires Running(q, View(), true) && View().Head().pp == ReadPP
      modifies `chain, `nextId, `live, `ran, heap, args`alignedProgress
      ensures r == DRV_OP_NEXT || r == DRV_OP_FINAL
      ensures |heap.bytes| == |old(heap.bytes)|
      ensures r == DRV_OP_NEXT ==> Waiting() && Remaining(q, View()) < old(Remaining(q, View()))
      ensures r == DRV_OP_FINAL ==> Ended()
    {
      hide Running, History, AlignedEstimate, WriteRequest, ReadRequest, Unharmed, Finished, Align, ReadList,
           Pieces, Sorted, Numbered, Below, ValidEnv, MaxEnd, CopiesFit, CopyAll, WritesAt, ReadsAt, GathersAt, Remaining;
      AfterGather(q, View());
      NoteRan();
      if args.alignedCnt == args.alignedProgress {
        ReadFinished(q, View());
        args.DataCopy();
        ReadHarmsNothing(q, View());
        r := DRV_OP_FINAL;
      } else {
        r := MovePieces();
        PiecesRemaining(q, View());
      }
    }

    // motr_obj_attrs_query_free_pp.
    method AttrsPostProc() returns (r: int)
      requires Serves() && Tracked() && InStep() && Unharmed(q, heap.bytes, obj.data)
      requires Running(q, View(), true) && View().Head().pp == AttrsPP
      modifies `ran
      ensures r == DRV_OP_FINAL && Ended()
    {
      hide Running, History, AlignedEstimate, WriteRequest, ReadRequest, Unharmed, Finished, Align, ReadList,
           Pieces, Sorted, Numbered, Below, ValidEnv, MaxEnd, CopiesFit, CopyAll, WritesAt, ReadsAt, GathersAt, Remaining;
      PutFinished(q, View());
      NoteRan();
      r := DRV_OP_FINAL;
    }

    method PostProcess() returns (r: int)
      requires Serves() && Tracked() && InStep() && q.e.max == obj.max && Unharmed(q, heap.bytes, obj.data)
      requires Running(q, View(), true)
      modifies `chain, `nextId, `live, `ran, heap, args`alignedProgress, args`rbwProgress, obj`size
      ensures r == DRV_OP_NEXT || r == DRV_OP_FINAL
      ensures |heap.bytes| == |old(heap.bytes)|
      ensures r == DRV_OP_NEXT ==> Waiting() && Remaining(q, View()) < old(Remaining(q, View()))
      ensures r == DRV_OP_FINAL ==> Ended()
    {
      hide Running, AlignedEstimate, WriteRequest, ReadRequest, Unharmed, Finished, Remaining;
      match chain[|chain| - 1].pp {
        case ReadBeforeWritePP => r := ReadBeforeWritePostProc();
        case WritePP => r := WritePostProc();
        case ReadPP => r := ReadPostProc();
        case AttrsPP => r := AttrsPostProc();
      }
    }

    // motr_obj_read_before_write.
    method ReadBeforeWrite() returns (r: int)
      requires Good(q) && Planned(Align(q.e, q.v).rbw) && q.e.isWrite && args.rbwCnt != 0
      modifies `chain, `nextId, `live, args`rbwProgress, args.rbw
      ensures r == 0 && Waiting() && Pieces(q) != []
    {
      hide Align, AlignedEstimate, MaxEnd, WriteRequest, ReadRequest, Elide, ReadsAt, History, Unharmed, Sorted;
      StartOfWrite(q, View());
      args.ReadBeforeWriteOptimise();
      PagesHavePieces(q);
      r := ReadPages(Read);
    }

    // mio_motr_obj_writev: an error when ranges overlap or none has bytes in it, and otherwise a
    // chain with its first operation launched. The store is not touched yet.
    method Writev(v: seq<Iovec>) returns (r: int)
      requires obj.Valid() && Idle() && v != []
      requires forall k :: 0 <= k < |v| ==> v[k].Fits(|heap.bytes|, |obj.data|)
      modifies `args, `q, `chain, `nextId, `live, heap
      ensures args != null && fresh(Repr()) && Asked(v, true, old(heap.bytes)) && MemoryKept(q, heap.bytes)
      ensures r == if !Ordered(q.v) then EINVAL
                   else if forall k :: 0 <= k < |v| ==> v[k].len == 0 then E2BIG
                   else 0
      ensures r == 0 ==> Waiting()
      ensures r < 0 ==> chain == []
    {
      hide RwArgs.Valid, Align, AlignedEstimate, MaxEnd, WriteRequest, ReadRequest, Ordered, ByOffset, ReadsAt, History, Unharmed;
      r := SortAndAdjust(v, true);
      if r < 0 {
        return;
      }
      RequestEnv(q);
      EmptyExactlyWhen(q, v);
      StartOfWrite(q, View());
      if args.rbwCnt != 0 {
        r := ReadBeforeWrite();
      } else {
        r := CopyAndWrite();
      }
    }

    // mio_motr_obj_readv: an error when no range has bytes in it, and otherwise a chain with the first
    // batch launched.
    method Readv(v: seq<Iovec>) returns (r: int)
      requires obj.Valid() && Idle() && v != []
      requires forall k :: 0 <= k < |v| ==> v[k].Fits(|heap.bytes|, |obj.data|)
      modifies `args, `q, `chain, `nextId, `live, heap
      ensures args != null && fresh(Repr()) && Asked(v, false, old(heap.bytes)) && q.mem == heap.bytes
      ensures ValidEnv(q.e) && r == if forall k :: 0 <= k < |v| ==> v[k].len == 0 then E2BIG else 0
      ensures chain == if r < 0 then [] else [DriverOp(0, Read, Batch(Pieces(q), 0, obj.max), ReadPP)]
      ensures r == 0 && BuffersDisjoint(v) ==> Waiting()
    {
      hide Align, AlignedEstimate, MaxEnd, WriteRequest, ReadRequest, Ordered, ByOffset, BuffersDisjoint, GathersAt,
           History, Unharmed, Running, Pieces, Sorted;
      r := SortAndAdjust(v, false);
      ghost var w, id := View(), nextId;
      var next;
      r, next := RwAligned(args.aligned, args.alignedCnt, args.alignedProgress, Read, ReadPP);
      args.alignedProgress := next;
      EmptyExactlyWhen(q, v);
      if Pieces(q) == [] {
        BatchAtEnd(Pieces(q), obj.max);
      } else {
        BatchMoves(q, 0);
      }
      if BuffersDisjoint(v) && Pieces(q) != [] {
        FirstGather(q, w, id);
      }
    }

    // An operation carried out, or cut short after some of its pieces.
    method Transfer(h: DriverOp, ok: bool, moved: nat)
      requires args != null && AllFit(h.iovs, |heap.bytes|, |obj.data|)
      modifies heap, obj`data, obj`stored
      ensures ok ==> View() == Effect(h, old(View()))
      ensures h.opcode == Read ==> obj.data == old(obj.data) && obj.stored == old(obj.stored)
      ensures |obj.data| == |old(obj.data)| && |heap.bytes| == |old(heap.bytes)|
      ensures h.opcode != Read ==> heap.bytes == old(heap.bytes)
      ensures forall x :: 0 <= x < |obj.data| && !Covered(h.iovs, x) ==> obj.data[x] == old(obj.data[x])
      ensures forall a :: 0 <= a < |heap.bytes| && Misses(h.iovs, a) ==> heap.bytes[a] == old(heap.bytes[a])
    {
      hide AllFit, Covered, Misses, WriteAll, ReadAll;
      var iovs := if !ok && moved < |h.iovs| then h.iovs[..moved] else h.iovs;
      PartOfBatch(h.iovs, iovs, heap.bytes, obj.data);
      match h.opcode {
        case Read => heap.bytes := ReadAll(iovs, heap.bytes, obj.data);
        case Write => obj.data := WriteAll(iovs, heap.bytes, obj.data);
        case PutSize(n) => if ok { obj.stored := n; }
      }
    }

    // A read leaves the object alone.
    ghost predicate Kept()
      reads this, obj
    {
      !q.e.isWrite ==> obj.data == q.store && obj.size == obj.stored == q.e.size
    }

    // mio_motr_op_wait on the operation at the head. It succeeds, or it fails having transferred
    // some of its own pieces.
    method Wait() returns (r: int, state: RetState)
      requires Waiting()
      modifies heap, obj`data, obj`stored, motr
      ensures Serves() && Unharmed(q, heap.bytes, obj.data) && Kept()
      ensures |heap.bytes| == |old(heap.bytes)|
      ensures motr.carried == old(motr.carried) + 1 && motr.Ran(old(motr.carried), motr.carried, r)
      ensures state == if r < 0 then Failed else Completed
      ensures state == Completed ==> Running(q, View(), true) && Remaining(q, View()) == old(Remaining(q, View()))
    {
      hide Running, AlignedEstimate, WriteRequest, ReadRequest, AllFit, Covered, Effect, Align, Unharmed, Remaining,
           ReadList, Pieces, Sorted, History, Below, Numbered, MaxEnd;
      var h := chain[|chain| - 1];
      ghost var w := View();
      assert h == w.Head();
      HeadCarriedOut(q, w);
      if !q.e.isWrite {
        ReadsKeep(q, w);
      }
      RequestEnv(q);
      var fate := motr.Wait();
      r := fate.rc;
      state := if r < 0 then Failed else Completed;
      Transfer(h, r == 0, fate.moved);
      StaysUnharmed(q, w, heap.bytes, obj.data);
      if r == 0 {
        EffectKeepsRemaining(q, w);
      }
    }

    // mio_op_poll on this operation alone, without a time limit. It fails exactly when a driver
    // operation does, with that one's code.
    method Poll() returns (state: RetState)
      requires Waiting()
      modifies `chain, `nextId, `live, `ran, `rc, heap, args`alignedProgress, args`rbwProgress,
               obj`data, obj`size, obj`stored, motr
      ensures old(motr.carried) < motr.carried && motr.Ran(old(motr.carried), motr.carried, rc)
      ensures state == if rc < 0 then Failed else Completed
      ensures state == Completed ==> Ended()
      ensures args != null && Tracked() && ValidEnv(q.e) && Unharmed(q, heap.bytes, obj.data)
      ensures state == Failed ==> Kept()
      ensures |heap.bytes| == |old(heap.bytes)|
    {
      hide Running, RwArgs.Valid, WriteRequest, ReadRequest, Unharmed, Finished, Remaining, Align, ReadList, Pieces, History,
           Below, Numbered, AlignedEstimate, MaxEnd;
      PiecesRemaining(q, View());
      state := OnFly;
      rc := 0;
      while state == OnFly
        invariant state == OnFly ==> Waiting() && ValidEnv(q.e) && History(q, View()) && rc == 0
        invariant motr.Ran(old(motr.carried), motr.carried, rc) && (state != OnFly ==> old(motr.carried) < motr.carried)
        invariant state == Completed ==> rc == 0 && Ended()
        invariant state == Failed ==> rc < 0 && Serves() && Tracked() && Unharmed(q, heap.bytes, obj.data) && Kept()
        invariant ValidEnv(q.e) && |heap.bytes| == |old(heap.bytes)|
        decreases if state == OnFly then Remaining(q, View()) + 1 else 0
      {
        rc, state := Wait();
        if state == Completed {
          var r := PostProcess();
          if r == DRV_OP_NEXT {
            state := OnFly;
            PiecesRemaining(q, View());
          }
        }
      }
    }

    // mio_motr_op_fini: every operation of the chain is released, head first, and each once.
    method Fini() returns (ghost freed: seq<nat>)
      requires Tracked()
      modifies `chain, `live
      ensures chain == [] && live == {}
      ensures |freed| == |old(chain)| && forall k :: 0 <= k < |freed| ==> freed[k] == old(chain)[|freed| - 1 - k].id
    {
      freed := [];
      while chain != []
        invariant |chain| + |freed| == |old(chain)| && chain == old(chain)[..|chain|]
        invariant live == Below(|chain|)
        invariant forall k :: 0 <= k < |freed| ==> freed[k] == old(chain)[|old(chain)| - 1 - k].id
        decreases |chain|
      {
        var dop := chain[|chain| - 1];
        chain := chain[..|chain| - 1];
        assert dop.id in live;
        live := live - {dop.id};
        freed := freed + [dop.id];
      }
    }
  }

  lemma RequestIsGood(q: Request, before: seq<byte>)
    requires ValidEnv(q.e) && q.e.top == |before| && Grown(before, q.mem)
    requires |q.mem| == Align(q.e, q.v).brk && Aligned(|q.store|, q.e.ps)
    requires forall k :: 0 <= k < |q.v| ==> q.v[k].Fits(q.e.top, |q.store|)
    requires if q.e.isWrite then Ordered(q.v) && ZeroPast(q.store, q.e.size) else BuffersDisjoint(q.v)
    ensures Good(q)
  {}

  lemma CopiesHarmNothing(q: Request, m: seq<byte>, store: seq<byte>)
    requires WriteRequest(q) && q.e.ps > 0 && Unharmed(q, m, store)
    ensures CopiesFit(Align(q.e, q.v).src, Align(q.e, q.v).dst, |m|)
    ensures var m' := CopyAll(Align(q.e, q.v).src, Align(q.e, q.v).dst, m);
            Unharmed(q, m', store) && MemoryKept(q, m')
  {
    hide MemoryKept, CopyAll, Align;
    CopiesSpare(q, m);
  }

  // A complete read leaves the rest of the caller's memory alone.
  lemma ReadHarmsNothing(q: Request, w: View)
    requires Finished(q, w) && !q.e.isWrite
    ensures q.e.ps > 0 && Unharmed(q, w.mem, w.store)
  {
    hide History, ReadRequest, Gathered;
    RequestEnv(q);
    GatheredSpares(q, w.mem);
  }

  lemma SortedIsGood(q: Request, v: seq<Iovec>, before: seq<byte>)
    requires ValidEnv(q.e) && q.e.top == |before| && Grown(before, q.mem)
    requires |q.mem| == Align(q.e, q.v).brk && Aligned(|q.store|, q.e.ps) && multiset(q.v) == multiset(v)
    requires forall k :: 0 <= k < |v| ==> v[k].Fits(q.e.top, |q.store|)
    requires if q.e.isWrite then Ordered(q.v) && ZeroPast(q.store, q.e.size) else BuffersDisjoint(v)
    ensures Good(q)
  {
    hide Align, Good, Ordered, BuffersDisjoint;
    SortedFits(v, q.v, q.e.top, |q.store|);
    if !q.e.isWrite {
      BuffersPermute(v, q.v);
    }
    RequestIsGood(q, before);
  }

  lemma HistoryKept(q: Request, w: View, w': View)
    requires Good(q) && History(q, w)
    requires w'.chain == w.chain && w'.readBack == w.readBack && w'.moved == w.moved
    ensures History(q, w')
  {}

  // A batch transferred in part changes nothing outside itself.
  lemma PartOfBatch(iovs: seq<Iovec>, some: seq<Iovec>, mem: seq<byte>, store: seq<byte>)
    requires AllFit(iovs, |mem|, |store|) && some <= iovs
    ensures AllFit(some, |mem|, |store|)
    ensures forall x :: 0 <= x < |store| && !Covered(iovs, x) ==> WriteAll(some, mem, store)[x] == store[x]
    ensures forall a :: 0 <= a < |mem| && Misses(iovs, a) ==> ReadAll(some, mem, store)[a] == mem[a]
  {
    hide Covered, Misses, ReadAll, WriteAll, AllFit;
    PartFits(iovs, some, |mem|, |store|);
    forall x | 0 <= x < |store| && !Covered(iovs, x) ensures WriteAll(some, mem, store)[x] == store[x] {
      PartCovers(iovs, some, x);
      WriteMisses(some, mem, store, x);
    }
    forall a | 0 <= a < |mem| && Misses(iovs, a) ensures ReadAll(some, mem, store)[a] == mem[a] {
      PartMisses(iovs, some, a);
      ReadMisses(some, mem, store, a);
    }
  }

  lemma PartFits(iovs: seq<Iovec>, some: seq<Iovec>, memory: nat, store: nat)
    requires AllFit(iovs, memory, store) && some <= iovs
    ensures AllFit(some, memory, store)
  {}

  lemma PartCovers(iovs: seq<Iovec>, some: seq<Iovec>, x: nat)
    requires some <= iovs && !Covered(iovs, x)
    ensures !Covered(some, x)
  {}

  lemma PartMisses(iovs: seq<Iovec>, some: seq<Iovec>, a: nat)
    requires some <= iovs && Misses(iovs, a)
    ensures forall k :: 0 <= k < |some| ==> !Fills(some[k], a)
  {
    forall k | 0 <= k < |some| ensures !Fills(some[k], a) {
      assert !Fills(iovs[k], a);
    }
  }

  lemma EffectKeepsRemaining(q: Request, w: View)
    requires Running(q, w, false) && AllFit(w.Head().iovs, |w.mem|, |w.store|)
    requires Running(q, Effect(w.Head(), w), true)
    ensures ValidEnv(q.e) && History(q, w) && History(q, Effect(w.Head(), w))
    ensures Remaining(q, Effect(w.Head(), w)) == Remaining(q, w)
  {
    hide Sorted, ReadList, Pieces, Within, Passed, WriteRequest, ReadRequest, ReadingBack, WritingPieces, PuttingSize, Gathering;
    RequestEnv(q);
  }

  // The state before the first operation.
  lemma StartOfWrite(q: Request, w: View)
    requires WriteRequest(q) && w.chain == [] && w.readBack == w.moved == 0 && w.mem == q.mem && w.store == q.store
    ensures ValidEnv(q.e) && q.e.isWrite && History(q, w) && ReadsAt(q, 0, w.mem, w.store) && Unharmed(q, w.mem, w.store)
    ensures ScanReady(Align(q.e, q.v).rbw, Align(q.e, q.v).dst, q.e.ps)
    ensures ReadList(q) == Elide(Align(q.e, q.v).rbw, Align(q.e, q.v).dst, q.e.ps)
  {
    AlignScanReady(q.e, q.v);
  }

  lemma StartOfRead(q: Request, w: View)
    requires ReadRequest(q) && w.chain == [] && w.readBack == w.moved == 0 && w.mem == q.mem && w.store == q.store
    ensures !q.e.isWrite && History(q, w) && GathersAt(q, 0, w.mem) && Unharmed(q, w.mem, w.store)
  {
    GathersStart(q);
  }

  lemma FirstGather(q: Request, w: View, id: nat)
    requires Good(q) && !q.e.isWrite && w.chain == [] && w.readBack == w.moved == 0 && Pieces(q) != []
    requires w.mem == q.mem && w.store == q.store && SizesKept(q, w)
    ensures Running(q, LaunchPieces(q, w, id), false) && Unharmed(q, w.mem, w.store)
    ensures Align(q.e, q.v).rbw == []
  {
    hide ReadRequest, WriteRequest, History, Running, Unharmed, GathersAt, LaunchPieces;
    RequestEnv(q);
    StartOfRead(q, w);
    NothingReadBack(q.e, q.v);
    PiecesLaunched(q, w, id);
  }

  lemma EmptyExactlyWhen(q: Request, v: seq<Iovec>)
    requires ValidEnv(q.e) && forall k :: 0 <= k < |q.v| ==> q.v[k].base + q.v[k].len <= q.e.top
    requires multiset(q.v) == multiset(v)
    ensures Pieces(q) == [] <==> forall k :: 0 <= k < |v| ==> v[k].len == 0
  {
    PiecesExactlyWhen(q.e, q.v);
    forall k | 0 <= k < |q.v| ensures q.v[k] in v {
      assert q.v[k] in multiset(q.v) && q.v[k] in multiset(v);
    }
    forall k | 0 <= k < |v| ensures v[k] in q.v {
      assert v[k] in multiset(v) && v[k] in multiset(q.v);
    }
  }

  lemma BatchMoves(q: Request, cursor: nat)
    requires ValidEnv(q.e) && cursor < |Pieces(q)|
    ensures 0 < |Batch(Pieces(q), cursor, q.e.max)|
  {
    PiecesFitAnOperation(q, cursor);
    NextBatch(Pieces(q), cursor, q.e.max);
  }

  lemma BatchAtEnd(list: seq<Iovec>, max: nat)
    ensures Batch(list, |list|, max) == []
  {}

  lemma SortedFits(v: seq<Iovec>, w: seq<Iovec>, memory: nat, store: nat)
    requires multiset(v) == multiset(w) && forall k :: 0 <= k < |v| ==> v[k].Fits(memory, store)
    ensures forall k :: 0 <= k < |w| ==> w[k].Fits(memory, store)
  {
    forall k | 0 <= k < |w| ensures w[k].Fits(memory, store) {
      assert w[k] in multiset(w) && w[k] in multiset(v);
    }
  }

  // ----- whole requests -----

  // The bytes where no range touches a page.
  ghost predicate UntouchedKept(e: Env, v: seq<Iovec>, s: seq<byte>, s': seq<byte>)
    requires e.ps > 0
  {
    |s'| == |s| && forall x :: 0 <= x < |s| && !Touched(e, v, x) ==> s'[x] == s[x]
  }

  lemma UnharmedKeeps(q: Request, mem: seq<byte>, s: seq<byte>, before: seq<byte>)
    requires q.e.ps > 0 && Unharmed(q, mem, s) && Grown(before, q.mem) && q.e.top == |before|
    ensures UntouchedKept(q.e, q.v, q.store, s)
    ensures q.e.isWrite ==> before <= mem
  {}

  lemma MemoryKeeps(q: Request, mem: seq<byte>, before: seq<byte>)
    requires MemoryKept(q, mem) && q.e.isWrite && Grown(before, q.mem) && q.e.top == |before|
    ensures before <= mem
  {}

  // A complete write in the caller's terms.
  lemma WriteInCallersTerms(q: Request, w: View, v: seq<Iovec>, before: seq<byte>)
    requires Finished(q, w) && q.e.isWrite && multiset(q.v) == multiset(v)
    requires Grown(before, q.mem) && q.e.top == |before|
    requires forall k :: 0 <= k < |v| ==> v[k].Fits(|before|, |q.store|)
    ensures ValidEnv(q.e) && AllFit(v, |before|, |q.store|)
    ensures Scattered(v, before, ZeroedAt(Late(q.e, q.v), q.store), w.store)
    ensures 2 * |v| * q.e.ps <= q.e.max ==> Scattered(v, before, q.store, w.store)
    ensures w.size == w.stored == NewSize(q.e.size, v) && ZeroPast(w.store, w.size) && |w.store| == |q.store|
  {
    hide Late, Outcome, ReadList, Pieces, History, AllFit, MaxEnd, Sorted, Ready;
    RequestEnv(q);
    var s := ZeroedAt(Late(q.e, q.v), q.store);
    OutcomeScatters(q.e, q.v, q.mem, q.store);
    ScatteredByPermutation(q.v, v, q.mem, s, w.store);
    ScatteredFromBuffers(v, before, q.mem, s, w.store);
    ZeroPastNewSize(q.e, q.v, q.mem, q.store);
    MaxEndOfPermutation(q.v, v);
    MaxEndOfPermutation(v, q.v);
    assert |q.v| == |multiset(q.v)| == |v|;
    if 2 * |v| * q.e.ps <= q.e.max {
      FewPagesAreSafe(q.e, q.v);
      NothingZeroed(q.store);
    }
  }

  lemma NothingZeroed(s: seq<byte>)
    ensures ZeroedAt([], s) == s
  {}

  lemma ScatteredFromBuffers(v: seq<Iovec>, before: seq<byte>, mem: seq<byte>, s: seq<byte>, s': seq<byte>)
    requires Grown(before, mem) && AllFit(v, |mem|, |s|) && Scattered(v, mem, s, s')
    requires forall k :: 0 <= k < |v| ==> v[k].Fits(|before|, |s|)
    ensures AllFit(v, |before|, |s|) && Scattered(v, before, s, s')
  {}

  // obj_write: a whole write, in the caller's terms. On success the store is the naive scatter of
  // the ranges, over the old store with the pages of late read batches zeroed, and the size is
  // the larger of the old one and the highest end. When two pages for every range fit one operation
  // that is the naive scatter over the old store. Pages no range touches and the caller's memory are
  // as before, even on failure.
  method ObjWrite(obj: MotrObject, heap: Heap, motr: Motr, v: seq<Iovec>) returns (rc: int, ghost w: seq<Iovec>)
    requires obj.Valid() && v != []
    requires forall k :: 0 <= k < |v| ==> v[k].Fits(|heap.bytes|, |obj.data|)
    modifies obj`data, obj`size, obj`stored, heap, motr
    ensures rc <= 0 && multiset(w) == multiset(v) && ByOffset(w)
    ensures !Ordered(w) ==> rc == EINVAL && motr.carried == old(motr.carried)
    ensures Ordered(w) && (forall k :: 0 <= k < |v| ==> v[k].len == 0) ==> rc == E2BIG && motr.carried == old(motr.carried)
    ensures Ordered(w) && (exists k :: 0 <= k < |v| && v[k].len > 0) ==>
              old(motr.carried) < motr.carried && motr.Ran(old(motr.carried), motr.carried, rc)
    ensures UntouchedKept(Env(obj.ps, obj.max, old(obj.size), true, |old(heap.bytes)|), w, old(obj.data), obj.data)
    ensures rc == 0 ==>
              var e := Env(obj.ps, obj.max, old(obj.size), true, |old(heap.bytes)|);
              && ValidEnv(e) && AllFit(v, |old(heap.bytes)|, |old(obj.data)|)
              && Scattered(v, old(heap.bytes), ZeroedAt(Late(e, w), old(obj.data)), obj.data)
              && (2 * |v| * obj.ps <= obj.max ==> Scattered(v, old(heap.bytes), old(obj.data), obj.data))
              && obj.size == NewSize(old(obj.size), v) && obj.Valid()
    ensures old(heap.bytes) <= heap.bytes
  {
    hide Unharmed, MemoryKept, UntouchedKept, Finished, Late, Scattered, Ordered, ByOffset, AllFit, Touched, ZeroPast,
         AlignedEstimate;
    var op := new MioOp(obj, heap, motr);
    rc := op.Writev(v);
    w := op.q.v;
    if rc < 0 {
      UntouchedAtFirst(op.q.e, w, obj.data);
      MemoryKeeps(op.q, heap.bytes, old(heap.bytes));
      return;
    }
    var state := op.Poll();
    rc := op.rc;
    UnharmedKeeps(op.q, heap.bytes, obj.data, old(heap.bytes));
    if state == Completed {
      WriteInCallersTerms(op.q, op.View(), v, old(heap.bytes));
    }
    ghost var freed := op.Fini();
  }

  lemma UntouchedAtFirst(e: Env, v: seq<Iovec>, s: seq<byte>)
    requires e.ps > 0
    ensures UntouchedKept(e, v, s, s)
  {}

  // Whichever way the ranges are put in order of offset, they are apart.
  ghost predicate SortsApart(v: seq<Iovec>) {
    forall w :: multiset(w) == multiset(v) && ByOffset(w) ==> Ordered(w)
  }

  lemma ApartSortsApart(v: seq<Iovec>)
    requires NoneOverlap(v) && forall k :: 0 <= k < |v| ==> v[k].len > 0
    ensures SortsApart(v)
  {
    hide Ordered, NoneOverlap, NeighboursApart;
    forall w: seq<Iovec> | multiset(w) == multiset(v) && ByOffset(w) ensures Ordered(w) {
      OverlapCheckExact(w, v);
      NeighboursApartIsOrdered(w);
    }
  }

  // Memory outside the buffers is as before.
  ghost predicate RestKept(v: seq<Iovec>, before: seq<byte>, after: seq<byte>) {
    |before| <= |after| && forall a :: 0 <= a < |before| && Misses(v, a) ==> after[a] == before[a]
  }

  lemma ReadKeepsRest(q: Request, mem: seq<byte>, v: seq<Iovec>, before: seq<byte>)
    requires MemoryKept(q, mem) && !q.e.isWrite && multiset(q.v) == multiset(v)
    requires Grown(before, q.mem) && q.e.top == |before|
    ensures RestKept(v, before, mem)
  {
    forall a | 0 <= a < |before| && Misses(v, a) ensures mem[a] == before[a] {
      forall k | 0 <= k < |q.v| ensures !Fills(q.v[k], a) {
        assert q.v[k] in multiset(q.v) && q.v[k] in multiset(v);
        var j :| 0 <= j < |v| && v[j] == q.v[k];
      }
      assert Spared(q, a);
    }
  }

  // Every buffer holds the bytes of its range, and the rest of memory is as before.
  ghost predicate Delivered(v: seq<Iovec>, s: seq<byte>, before: seq<byte>, after: seq<byte>)
    requires AllFit(v, |before|, |s|)
  {
    && RestKept(v, before, after)
    && (forall k, a :: 0 <= k < |v| && Fills(v[k], a) ==> after[a] == s[v[k].off + (a - v[k].base)])
  }

  lemma ReadInCallersTerms(q: Request, w: View, v: seq<Iovec>, before: seq<byte>)
    requires Finished(q, w) && !q.e.isWrite && multiset(q.v) == multiset(v)
    requires Grown(before, q.mem) && q.e.top == |before|
    ensures AllFit(v, |before|, |q.store|) && Delivered(v, q.store, before, w.mem)
    ensures w.store == q.store && w.size == w.stored == q.e.size
  {
    hide Pieces, History, ReadRequest;
    GatheredByPermutation(q.v, v, q.e.top, q.store, q.mem, w.mem);
  }

  lemma GrownKeepsRest(v: seq<Iovec>, before: seq<byte>, after: seq<byte>)
    requires Grown(before, after)
    ensures RestKept(v, before, after)
  {}

  lemma UnharmedMemory(q: Request, mem: seq<byte>, s: seq<byte>)
    requires q.e.ps > 0 && Unharmed(q, mem, s)
    ensures MemoryKept(q, mem)
  {}

  // obj_read: every buffer holds the bytes of its range, whether ranges overlap or not. The object
  // and memory outside the buffers are as before, even on failure.
  method ObjRead(obj: MotrObject, heap: Heap, motr: Motr, v: seq<Iovec>) returns (rc: int)
    requires obj.Valid() && v != [] && BuffersDisjoint(v)
    requires forall k :: 0 <= k < |v| ==> v[k].Fits(|heap.bytes|, |obj.data|)
    modifies heap, obj`data, obj`size, obj`stored, motr
    ensures rc <= 0 && obj.Valid() && obj.data == old(obj.data) && obj.size == old(obj.size)
    ensures RestKept(v, old(heap.bytes), heap.bytes)
    ensures (forall k :: 0 <= k < |v| ==> v[k].len == 0) ==> rc == E2BIG && motr.carried == old(motr.carried)
    ensures (exists k :: 0 <= k < |v| && v[k].len > 0) ==>
              old(motr.carried) < motr.carried && motr.Ran(old(motr.carried), motr.carried, rc)
    ensures rc == 0 ==> AllFit(v, |old(heap.bytes)|, |obj.data|) && Delivered(v, obj.data, old(heap.bytes), heap.bytes)
  {
    hide Unharmed, MemoryKept, RestKept, Finished, Delivered, Ordered, ByOffset, BuffersDisjoint, AllFit, ZeroPast,
         AlignedEstimate;
    var op := new MioOp(obj, heap, motr);
    rc := op.Readv(v);
    if rc < 0 {
      GrownKeepsRest(v, old(heap.bytes), heap.bytes);
      return;
    }
    var state := op.Poll();
    rc := op.rc;
    UnharmedMemory(op.q, heap.bytes, obj.data);
    ReadKeepsRest(op.q, heap.bytes, v, old(heap.bytes));
    if state == Completed {
      ReadInCallersTerms(op.q, op.View(), v, old(heap.bytes));
    }
    ghost var freed := op.Fini();
  }
}
