// The states a chain of driver operations passes through, as values: memory and store before each
// operation is carried out, and what each operation and each post-processing step makes of them.
module ChainSteps {
  import opened Transfers
  import opened Alignment
  import opened Decomposition
  import opened WriteRefinement
  import opened ReadRefinement
  import opened WriteChain
  import opened WriteOutcome

  // What a request was made of: its ranges in order, and memory and store when it was made.
  datatype Request = Request(e: Env, v: seq<Iovec>, mem: seq<byte>, store: seq<byte>)

  ghost predicate WriteRequest(q: Request) {
    Ready(q.e, q.v, q.mem, q.store)
  }

  ghost function ReadList(q: Request): (r: seq<Iovec>)
    requires ValidEnv(q.e)
  {
    Reads(q.e, q.v)
  }

  ghost function FirstBatch(q: Request): (b: nat)
    requires ValidEnv(q.e)
    ensures b <= |ReadList(q)|
  {
    BatchSize(ReadList(q), q.e.max)
  }

  lemma RequestFits(q: Request, s: nat, t: nat)
    requires WriteRequest(q) && s <= t <= |ReadList(q)|
    ensures AllFit(ReadList(q), |q.mem|, |q.store|) && AllFit(ReadList(q)[..FirstBatch(q)], |q.mem|, |q.store|)
    ensures AllFit(ReadList(q)[s..t], |q.mem|, |q.store|)
  {
    ReadyRuns(q.e, q.v, q.mem, q.store, FirstBatch(q));
  }

  // Before the read at position `s` of the list: nothing done, or the first batch read into memory
  // and everything after it, up to `s`, written to the store.
  ghost predicate ReadsAt(q: Request, s: nat, m: seq<byte>, d: seq<byte>)
    requires WriteRequest(q)
  {
    var r, b := ReadList(q), FirstBatch(q);
    if s == 0 then m == q.mem && d == q.store
    else
      b <= s <= |r|
      && AllFit(r[..b], |q.mem|, |q.store|) && AllFit(r[b..s], |q.mem|, |q.store|)
      && m == ReadAll(r[..b], q.mem, q.store) && d == WriteAll(r[b..s], m, q.store)
  }

  // The first batch, launched as a READ.
  lemma FirstReadStep(q: Request, m: seq<byte>, d: seq<byte>)
    requires WriteRequest(q) && ReadsAt(q, 0, m, d) && 0 < FirstBatch(q)
    ensures AllFit(ReadList(q)[..FirstBatch(q)], |m|, |d|)
    ensures ReadsAt(q, FirstBatch(q), ReadAll(ReadList(q)[..FirstBatch(q)], m, d), d)
  {
    var r, b := ReadList(q), FirstBatch(q);
    RequestFits(q, b, b);
    assert r[b..b] == [];
  }

  // A further batch, launched as a WRITE.
  lemma LateReadStep(q: Request, s: nat, t: nat, m: seq<byte>, d: seq<byte>)
    requires WriteRequest(q) && ReadsAt(q, s, m, d) && 0 < s <= t <= |ReadList(q)|
    ensures AllFit(ReadList(q)[s..t], |m|, |d|)
    ensures ReadsAt(q, t, m, WriteAll(ReadList(q)[s..t], m, d))
  {
    var r, b := ReadList(q), FirstBatch(q);
    RequestFits(q, s, t);
    WriteSlices(r, b, s, t, m, q.store);
  }

  // Before the write at position `s` of the aligned pieces.
  ghost predicate WritesAt(q: Request, s: nat, m: seq<byte>, d: seq<byte>)
    requires WriteRequest(q)
  {
    var p, r, b := Align(q.e, q.v), ReadList(q), FirstBatch(q);
    && s <= |p.aligned|
    && Runs(p, |q.mem|, |q.store|) && AllFit(p.aligned[..s], |q.mem|, |q.store|)
    && AllFit(r[..b], |q.mem|, |q.store|) && AllFit(r[b..], |q.mem|, |q.store|)
    && m == CopyAll(p.src, p.dst, MemoryRead(r, b, q.mem, q.store))
    && d == WriteAll(p.aligned[..s], m, StoreAfterReads(r, b, q.mem, q.store))
  }

  // The data copies, once everything is read back.
  lemma CopyStepStartsWrites(q: Request, m: seq<byte>, d: seq<byte>)
    requires WriteRequest(q) && ReadsAt(q, |ReadList(q)|, m, d)
    ensures CopiesFit(Align(q.e, q.v).src, Align(q.e, q.v).dst, |m|)
    ensures WritesAt(q, 0, CopyAll(Align(q.e, q.v).src, Align(q.e, q.v).dst, m), d)
  {
    var p, r, b := Align(q.e, q.v), ReadList(q), FirstBatch(q);
    ReadyRuns(q.e, q.v, q.mem, q.store, b);
    RequestFits(q, b, |r|);
    hide Ready, Reads, Align;
    assert r[b..|r|] == r[b..] && p.aligned[..0] == [];
    if r == [] {
      assert r[..b] == [] && r[b..] == [];
    }
  }

  lemma WriteStep(q: Request, s: nat, t: nat, m: seq<byte>, d: seq<byte>)
    requires WriteRequest(q) && WritesAt(q, s, m, d) && s <= t <= |Align(q.e, q.v).aligned|
    ensures AllFit(Align(q.e, q.v).aligned[s..t], |m|, |d|)
    ensures WritesAt(q, t, m, WriteAll(Align(q.e, q.v).aligned[s..t], m, d))
  {
    var p, r, b := Align(q.e, q.v), ReadList(q), FirstBatch(q);
    var a := p.aligned;
    hide AllFit, WriteAll, ReadAll, CopyAll, StoreAfterReads, MemoryRead, ReadList, FirstBatch;
    assert a[0..s] == a[..s] && a[0..t] == a[..t];
    WriteSlices(a, 0, s, t, m, StoreAfterReads(r, b, q.mem, q.store));
  }

  lemma WritesEnd(q: Request, m: seq<byte>, d: seq<byte>)
    requires WriteRequest(q) && WritesAt(q, |Align(q.e, q.v).aligned|, m, d)
    ensures d == Outcome(q.e, q.v, q.mem, q.store)
  {
    var a := Align(q.e, q.v).aligned;
    assert a[..|a|] == a;
  }

  // ----- reads -----

  ghost predicate ReadRequest(q: Request) {
    ValidEnv(q.e) && !q.e.isWrite && Holds(q.e, q.v, q.mem, q.store) && BuffersDisjoint(q.v)
  }

  ghost predicate GathersAt(q: Request, s: nat, m: seq<byte>)
    requires ReadRequest(q)
  {
    var a := Align(q.e, q.v).aligned;
    s <= |a| && Runs(Align(q.e, q.v), |q.mem|, |q.store|) && AllFit(a[..s], |q.mem|, |q.store|)
    && m == ReadAll(a[..s], q.mem, q.store)
  }

  lemma GathersStart(q: Request)
    requires ReadRequest(q)
    ensures GathersAt(q, 0, q.mem)
  {
    AlignedReadGathers(q.e, q.v, q.mem, q.store);
    assert Align(q.e, q.v).aligned[..0] == [];
  }

  lemma GatherStep(q: Request, s: nat, t: nat, m: seq<byte>)
    requires ReadRequest(q) && GathersAt(q, s, m) && s <= t <= |Align(q.e, q.v).aligned|
    ensures AllFit(Align(q.e, q.v).aligned[s..t], |m|, |q.store|)
    ensures GathersAt(q, t, ReadAll(Align(q.e, q.v).aligned[s..t], m, q.store))
  {
    var a := Align(q.e, q.v).aligned;
    assert a[0..s] == a[..s] && a[0..t] == a[..t];
    ReadSlices(a, 0, s, t, q.mem, q.store);
  }

  // The data copies after the last piece deliver what the caller asked for.
  lemma GathersEnd(q: Request, m: seq<byte>)
    requires ReadRequest(q) && GathersAt(q, |Align(q.e, q.v).aligned|, m)
    ensures CopiesFit(Align(q.e, q.v).src, Align(q.e, q.v).dst, |m|)
    ensures q.e.top <= |q.mem| && AllFit(q.v, q.e.top, |q.store|)
    ensures Gathered(q.v, q.e.top, q.store, q.mem, CopyAll(Align(q.e, q.v).src, Align(q.e, q.v).dst, m))
  {
    var a := Align(q.e, q.v).aligned;
    assert a[..|a|] == a;
    AlignedReadGathers(q.e, q.v, q.mem, q.store);
  }

  // ----- the chain -----

  datatype Opcode = Read | Write | PutSize(size: nat)

  datatype PostProc = ReadBeforeWritePP | WritePP | ReadPP | AttrsPP

  // One driver operation (struct mio_driver_op): what was launched, and what is to happen after it.
  datatype DriverOp = DriverOp(id: nat, opcode: Opcode, iovs: seq<Iovec>, pp: PostProc)

  // Everything a chain changes, and its cursors. The head of the chain is its last element.
  datatype View = View(mem: seq<byte>, store: seq<byte>, size: nat, stored: nat,
                       readBack: nat, moved: nat, chain: seq<DriverOp>)
  {
    function Head(): DriverOp
      requires chain != []
    {
      chain[|chain| - 1]
    }
  }

  // The pieces sent with operations of one kind, in launch order.
  function Sent(chain: seq<DriverOp>, pp: PostProc): (v: seq<Iovec>) {
    if chain == [] then []
    else Sent(chain[..|chain| - 1], pp) + if chain[|chain| - 1].pp == pp then chain[|chain| - 1].iovs else []
  }

  ghost predicate Good(q: Request) {
    if q.e.isWrite then WriteRequest(q) else ReadRequest(q)
  }

  ghost function Pieces(q: Request): (a: seq<Iovec>)
    requires ValidEnv(q.e)
  {
    Align(q.e, q.v).aligned
  }

  function DataPP(q: Request): PostProc {
    if q.e.isWrite then WritePP else ReadPP
  }

  ghost predicate Within(chain: seq<DriverOp>, max: nat) {
    forall k :: 0 <= k < |chain| ==> TotalLen(chain[k].iovs) <= max
  }

  // The operations of one kind have sent a list up to a cursor.
  ghost predicate Passed(chain: seq<DriverOp>, pp: PostProc, list: seq<Iovec>, cursor: nat) {
    cursor <= |list| && Sent(chain, pp) == list[..cursor]
  }

  // Every batch so far fits one operation, and together they are what the cursors have passed:
  // each page to read back and each piece once, in order.
  ghost predicate History(q: Request, w: View)
    requires ValidEnv(q.e)
  {
    && Within(w.chain, q.e.max)
    && Passed(w.chain, ReadBeforeWritePP, ReadList(q), w.readBack)
    && Passed(w.chain, DataPP(q), Pieces(q), w.moved)
  }

  predicate SizesKept(q: Request, w: View) {
    w.size == q.e.size && w.stored == q.e.size
  }

  predicate IsBatch(list: seq<Iovec>, cursor: nat, iovs: seq<Iovec>) {
    0 < |iovs| <= cursor <= |list| && iovs == list[cursor - |iovs|..cursor]
  }

  // Before or after the batch `n` entries long that ends at `cursor`.
  function At(cursor: nat, n: nat, done: bool): (s: nat)
    requires n <= cursor
  {
    if done then cursor else cursor - n
  }

  ghost predicate ReadingBack(q: Request, w: View, done: bool)
    requires WriteRequest(q) && w.chain != []
  {
    var h := w.Head();
    && SizesKept(q, w) && w.moved == 0 && IsBatch(ReadList(q), w.readBack, h.iovs)
    && (|h.iovs| == w.readBack ==> w.readBack == FirstBatch(q))
    && h.opcode == (if |h.iovs| == w.readBack then Read else Write)
    && ReadsAt(q, At(w.readBack, |h.iovs|, done), w.mem, w.store)
  }

  ghost predicate WritingPieces(q: Request, w: View, done: bool)
    requires WriteRequest(q) && w.chain != []
  {
    var h := w.Head();
    && SizesKept(q, w) && w.readBack == |ReadList(q)| && IsBatch(Pieces(q), w.moved, h.iovs)
    && h.opcode == Write && WritesAt(q, At(w.moved, |h.iovs|, done), w.mem, w.store)
  }

  ghost predicate PuttingSize(q: Request, w: View, done: bool)
    requires WriteRequest(q) && w.chain != []
  {
    && w.Head().opcode == PutSize(MaxEnd(q.v)) && w.Head().iovs == []
    && w.readBack == |ReadList(q)| && w.moved == |Pieces(q)|
    && w.store == Outcome(q.e, q.v, q.mem, q.store)
    && q.e.size < w.size == MaxEnd(q.v) && w.stored == if done then MaxEnd(q.v) else q.e.size
  }

  ghost predicate Gathering(q: Request, w: View, done: bool)
    requires ReadRequest(q) && w.chain != []
  {
    var h := w.Head();
    && SizesKept(q, w) && IsBatch(Pieces(q), w.moved, h.iovs)
    && h.opcode == Read && GathersAt(q, At(w.moved, |h.iovs|, done), w.mem) && w.store == q.store
  }

  // The operation at the head is launched or, when `done`, carried out and not yet post-processed.
  ghost predicate Running(q: Request, w: View, done: bool) {
    && Good(q) && w.chain != [] && History(q, w)
    && match w.Head().pp
       case ReadBeforeWritePP => q.e.isWrite && ReadingBack(q, w, done)
       case WritePP => q.e.isWrite && WritingPieces(q, w, done)
       case AttrsPP => q.e.isWrite && PuttingSize(q, w, done)
       case ReadPP => !q.e.isWrite && Gathering(q, w, done)
  }

  // The whole request is done.
  ghost predicate Finished(q: Request, w: View) {
    && Good(q) && History(q, w) && w.moved == |Pieces(q)| && w.size == w.stored
    && if q.e.isWrite then
         && w.readBack == |ReadList(q)|
         && w.store == Outcome(q.e, q.v, q.mem, q.store) && w.size == NewSize(q.e.size, q.v)
       else
         && w.store == q.store && w.size == q.e.size
         && q.e.top <= |q.mem| && AllFit(q.v, q.e.top, |q.store|)
         && Gathered(q.v, q.e.top, q.store, q.mem, w.mem)
  }

  // How far a chain is from its end.
  ghost function Remaining(q: Request, w: View): (n: nat)
    requires ValidEnv(q.e) && History(q, w)
  {
    |ReadList(q)| - w.readBack + |Pieces(q)| - w.moved
    + if w.chain == [] then 2 else if w.Head().pp == AttrsPP then 0 else 1
  }

  // What an operation does when it succeeds.
  function Effect(op: DriverOp, w: View): (w': View)
    requires AllFit(op.iovs, |w.mem|, |w.store|)
  {
    match op.opcode
    case Read => w.(mem := ReadAll(op.iovs, w.mem, w.store))
    case Write => w.(store := WriteAll(op.iovs, w.mem, w.store))
    case PutSize(n) => w.(stored := n)
  }

  // Carrying out the operation at the head is what the next post-processing step expects.
  lemma HeadCarriedOut(q: Request, w: View)
    requires Running(q, w, false)
    ensures AllFit(w.Head().iovs, |w.mem|, |w.store|)
    ensures Running(q, Effect(w.Head(), w), true)
  {
    hide ReadList, FirstBatch, Pieces, Sent, ReadsAt, WritesAt, GathersAt, Within, ReadAll, WriteAll, AllFit,
         WriteRequest, ReadRequest, Outcome, MaxEnd;
    var h := w.Head();
    match h.pp {
      case ReadBeforeWritePP =>
        if |h.iovs| == w.readBack {
          FirstHead(q, w);
        } else {
          LateReadStep(q, w.readBack - |h.iovs|, w.readBack, w.mem, w.store);
        }
      case WritePP => WriteHead(q, w);
      case AttrsPP => NothingFits(|w.mem|, |w.store|);
      case ReadPP => GatherHead(q, w);
    }
  }

  lemma NothingFits(memory: nat, store: nat)
    ensures AllFit([], memory, store)
  {}

  lemma RequestEnv(q: Request)
    requires WriteRequest(q) || ReadRequest(q)
    ensures ValidEnv(q.e) && forall k :: 0 <= k < |q.v| ==> q.v[k].base + q.v[k].len <= q.e.top
    ensures WriteRequest(q) ==> q.e.isWrite && Sorted(q.e, q.v)
    ensures ReadRequest(q) ==> !q.e.isWrite
  {}

  lemma FirstHead(q: Request, w: View)
    requires WriteRequest(q) && w.chain != [] && ReadingBack(q, w, false) && |w.Head().iovs| == w.readBack
    ensures AllFit(w.Head().iovs, |w.mem|, |w.store|)
    ensures ReadsAt(q, w.readBack, ReadAll(w.Head().iovs, w.mem, w.store), w.store)
  {
    hide ReadList, FirstBatch, ReadsAt, ReadAll, AllFit, WriteRequest, Sorted;
    RequestEnv(q);
    assert ReadList(q)[0..w.readBack] == ReadList(q)[..w.readBack];
    FirstReadStep(q, w.mem, w.store);
  }

  lemma WriteHead(q: Request, w: View)
    requires WriteRequest(q) && w.chain != [] && WritingPieces(q, w, false)
    ensures AllFit(w.Head().iovs, |w.mem|, |w.store|)
    ensures WritesAt(q, w.moved, w.mem, WriteAll(w.Head().iovs, w.mem, w.store))
  {
    hide ReadList, WritesAt, WriteAll, AllFit, WriteRequest;
    WriteStep(q, w.moved - |w.Head().iovs|, w.moved, w.mem, w.store);
  }

  lemma GatherHead(q: Request, w: View)
    requires ReadRequest(q) && w.chain != [] && Gathering(q, w, false)
    ensures AllFit(w.Head().iovs, |w.mem|, |w.store|)
    ensures GathersAt(q, w.moved, ReadAll(w.Head().iovs, w.mem, w.store))
  {
    hide GathersAt, ReadAll, AllFit, ReadRequest;
    GatherStep(q, w.moved - |w.Head().iovs|, w.moved, w.mem);
  }

  // ----- launching -----

  // Pieces and pages to read are never larger than one operation: a batch is never empty.
  lemma PiecesFitAnOperation(q: Request, k: nat)
    requires ValidEnv(q.e) && k < |Pieces(q)|
    ensures Pieces(q)[k].len <= q.e.max
  {
    PiecesNoneLarger(q.e, q.v);
  }

  lemma ReadsFitAnOperation(q: Request, k: nat)
    requires ValidEnv(q.e) && Sorted(q.e, q.v) && k < |ReadList(q)|
    ensures ReadList(q)[k].len <= q.e.max
  {
    var p := Align(q.e, q.v);
    AlignInv(q.e, q.v);
    assert RbwOk(q.e, p.rbw[k], p.brk, Frontier(q.v));
  }

  // The batch an operation takes from a list at a cursor.
  function Batch(list: seq<Iovec>, cursor: nat, max: nat): (b: seq<Iovec>)
    requires cursor <= |list|
    ensures cursor + |b| <= |list|
  {
    list[cursor..cursor + BatchSize(list[cursor..], max)]
  }

  lemma NextBatch(list: seq<Iovec>, cursor: nat, max: nat)
    requires cursor < |list| && list[cursor].len <= max
    ensures var b := Batch(list, cursor, max); 0 < |b| && IsBatch(list, cursor + |b|, b) && TotalLen(b) <= max
  {
    var n := BatchSize(list[cursor..], max);
    BatchIsGreedy(list[cursor..], max);
    assert list[cursor..][..n] == list[cursor..cursor + n];
  }

  lemma BatchFromStart(list: seq<Iovec>, max: nat)
    ensures |Batch(list, 0, max)| == BatchSize(list, max)
  {}

  lemma WithinSnoc(chain: seq<DriverOp>, op: DriverOp, max: nat)
    requires Within(chain, max) && TotalLen(op.iovs) <= max
    ensures Within(chain + [op], max)
  {}

  lemma BatchPassed(chain: seq<DriverOp>, op: DriverOp, list: seq<Iovec>, cursor: nat, max: nat)
    requires Passed(chain, op.pp, list, cursor) && op.iovs == Batch(list, cursor, max)
    ensures Passed(chain + [op], op.pp, list, cursor + |op.iovs|)
  {}

  lemma OthersPassed(chain: seq<DriverOp>, op: DriverOp, pp: PostProc, list: seq<Iovec>, cursor: nat)
    requires Passed(chain, pp, list, cursor) && op.pp != pp
    ensures Passed(chain + [op], pp, list, cursor)
  {}

  // The state with a batch of pages to read back, or of pieces, launched on top.
  ghost function LaunchReads(q: Request, w: View, id: nat): (w': View)
    requires ValidEnv(q.e) && w.readBack <= |ReadList(q)|
  {
    var b := Batch(ReadList(q), w.readBack, q.e.max);
    w.(readBack := w.readBack + |b|,
       chain := w.chain + [DriverOp(id, if w.readBack == 0 then Read else Write, b, ReadBeforeWritePP)])
  }

  ghost function LaunchPieces(q: Request, w: View, id: nat): (w': View)
    requires ValidEnv(q.e) && w.moved <= |Pieces(q)|
  {
    var b := Batch(Pieces(q), w.moved, q.e.max);
    w.(moved := w.moved + |b|, chain := w.chain + [DriverOp(id, if q.e.isWrite then Write else Read, b, DataPP(q))])
  }

  lemma HistoryReads(q: Request, w: View, id: nat)
    requires WriteRequest(q) && q.e.isWrite && History(q, w) && w.readBack < |ReadList(q)|
    ensures var w' := LaunchReads(q, w, id);
            History(q, w') && IsBatch(ReadList(q), w'.readBack, w'.Head().iovs) && 0 < |w'.Head().iovs|
  {
    hide ReadList, Pieces, TotalLen, WriteRequest, Within, Sorted, Passed, Batch, IsBatch;
    RequestEnv(q);
    ReadsFitAnOperation(q, w.readBack);
    NextBatch(ReadList(q), w.readBack, q.e.max);
    var op := LaunchReads(q, w, id).Head();
    WithinSnoc(w.chain, op, q.e.max);
    BatchPassed(w.chain, op, ReadList(q), w.readBack, q.e.max);
    OthersPassed(w.chain, op, WritePP, Pieces(q), w.moved);
  }

  lemma HistoryPieces(q: Request, w: View, id: nat)
    requires Good(q) && History(q, w) && w.moved < |Pieces(q)|
    ensures var w' := LaunchPieces(q, w, id);
            History(q, w') && IsBatch(Pieces(q), w'.moved, w'.Head().iovs)
  {
    hide ReadList, Pieces, TotalLen, WriteRequest, ReadRequest, Within, Sorted, Passed, Batch, IsBatch;
    RequestEnv(q);
    PiecesFitAnOperation(q, w.moved);
    NextBatch(Pieces(q), w.moved, q.e.max);
    var op := LaunchPieces(q, w, id).Head();
    WithinSnoc(w.chain, op, q.e.max);
    BatchPassed(w.chain, op, Pieces(q), w.moved, q.e.max);
    OthersPassed(w.chain, op, ReadBeforeWritePP, ReadList(q), w.readBack);
  }

  lemma HistoryPutSize(q: Request, w: View, id: nat, size: nat)
    requires WriteRequest(q) && q.e.isWrite && History(q, w)
    ensures History(q, w.(size := size, chain := w.chain + [DriverOp(id, PutSize(size), [], AttrsPP)]))
  {}

  lemma ReadsLaunched(q: Request, w: View, id: nat)
    requires WriteRequest(q) && q.e.isWrite && History(q, w) && SizesKept(q, w)
    requires w.moved == 0 && w.readBack < |ReadList(q)| && ReadsAt(q, w.readBack, w.mem, w.store)
    ensures var w' := LaunchReads(q, w, id);
            Running(q, w', false) && w.readBack < w'.readBack && w'.Head().pp == ReadBeforeWritePP
  {
    hide ReadList, WriteRequest, History, Batch, ReadingBack;
    HistoryReads(q, w, id);
    BackLaunched(q, w, id);
  }

  lemma BackLaunched(q: Request, w: View, id: nat)
    requires WriteRequest(q) && History(q, w) && SizesKept(q, w)
    requires w.moved == 0 && w.readBack < |ReadList(q)| && ReadsAt(q, w.readBack, w.mem, w.store)
    requires var w' := LaunchReads(q, w, id); 0 < |w'.Head().iovs| && IsBatch(ReadList(q), w'.readBack, w'.Head().iovs)
    ensures ReadingBack(q, LaunchReads(q, w, id), false)
  {
    hide ReadList, ReadsAt, WriteRequest, History, Batch, IsBatch, BatchSize, Sorted;
    RequestEnv(q);
    BatchFromStart(ReadList(q), q.e.max);
  }

  lemma PiecesLaunched(q: Request, w: View, id: nat)
    requires Good(q) && History(q, w) && SizesKept(q, w) && w.moved < |Pieces(q)|
    requires if q.e.isWrite then w.readBack == |ReadList(q)| && WritesAt(q, w.moved, w.mem, w.store)
             else GathersAt(q, w.moved, w.mem) && w.store == q.store
    ensures var w' := LaunchPieces(q, w, id);
            Running(q, w', false) && w.moved < w'.moved && w'.Head().pp == DataPP(q)
  {
    hide ReadList, Pieces, WritesAt, GathersAt, WriteRequest, ReadRequest, History, Batch;
    HistoryPieces(q, w, id);
  }

  lemma PutSizeLaunched(q: Request, w: View, id: nat)
    requires Running(q, w, true) && w.Head().pp == WritePP && w.moved == |Pieces(q)| && q.e.size < MaxEnd(q.v)
    ensures Running(q, w.(size := MaxEnd(q.v), chain := w.chain + [DriverOp(id, PutSize(MaxEnd(q.v)), [], AttrsPP)]), false)
  {
    hide ReadList, WriteRequest, Within, WritesAt, Outcome, History, MaxEnd, Sorted, ReadsAt, GathersAt;
    RequestEnv(q);
    HistoryPutSize(q, w, id, MaxEnd(q.v));
    WritesEnd(q, w.mem, w.store);
  }

  // ----- post-processing -----

  // What is known when a post-processing step starts.
  lemma AfterReadBack(q: Request, w: View)
    requires Running(q, w, true) && w.Head().pp == ReadBeforeWritePP
    ensures WriteRequest(q) && q.e.isWrite && History(q, w) && SizesKept(q, w)
    ensures w.moved == 0 && 0 < w.readBack <= |ReadList(q)| && ReadsAt(q, w.readBack, w.mem, w.store)
    ensures Remaining(q, w) == |ReadList(q)| - w.readBack + |Pieces(q)| + 1
    ensures Pieces(q) != []
  {
    hide Sorted, ReadsAt, ReadList, Pieces, Passed, Within, WriteRequest;
    RequestEnv(q);
    PagesHavePieces(q);
  }

  lemma PagesHavePieces(q: Request)
    requires ValidEnv(q.e) && ReadList(q) != []
    ensures Pieces(q) != []
  {
    AlignReadsArePieces(q.e, q.v);
    assert Align(q.e, q.v).rbw[0] in Pieces(q);
  }

  lemma AfterWrite(q: Request, w: View)
    requires Running(q, w, true) && w.Head().pp == WritePP
    ensures WriteRequest(q) && q.e.isWrite && History(q, w) && SizesKept(q, w)
    ensures w.readBack == |ReadList(q)| && WritesAt(q, w.moved, w.mem, w.store) && w.moved <= |Pieces(q)|
    ensures Remaining(q, w) == |Pieces(q)| - w.moved + 1
  {}

  lemma AfterGather(q: Request, w: View)
    requires Running(q, w, true) && w.Head().pp == ReadPP
    ensures ReadRequest(q) && !q.e.isWrite && History(q, w) && SizesKept(q, w)
    ensures w.store == q.store && GathersAt(q, w.moved, w.mem) && w.moved <= |Pieces(q)|
    ensures Remaining(q, w) == |ReadList(q)| - w.readBack + |Pieces(q)| - w.moved + 1
  {}

  lemma PiecesRemaining(q: Request, w: View)
    requires Running(q, w, false)
    ensures ValidEnv(q.e) && History(q, w) && w.readBack <= |ReadList(q)| && w.moved <= |Pieces(q)|
    ensures Remaining(q, w) ==
            |ReadList(q)| - w.readBack + |Pieces(q)| - w.moved + if w.Head().pp == AttrsPP then 0 else 1
  {}

  lemma WriteFinished(q: Request, w: View)
    requires Good(q) && q.e.isWrite && History(q, w) && SizesKept(q, w)
    requires w.readBack == |ReadList(q)| && w.moved == |Pieces(q)| && WritesAt(q, w.moved, w.mem, w.store)
    requires MaxEnd(q.v) <= w.size
    ensures Finished(q, w)
  {
    WritesEnd(q, w.mem, w.store);
  }

  lemma PutFinished(q: Request, w: View)
    requires Running(q, w, true) && w.Head().pp == AttrsPP
    ensures Finished(q, w)
  {
    hide ReadList, Pieces, History, WriteRequest, Outcome;
  }

  lemma ReadFinished(q: Request, w: View)
    requires Good(q) && !q.e.isWrite && History(q, w) && SizesKept(q, w)
    requires w.store == q.store && w.moved == |Pieces(q)| && GathersAt(q, w.moved, w.mem)
    ensures CopiesFit(Align(q.e, q.v).src, Align(q.e, q.v).dst, |w.mem|)
    ensures Finished(q, w.(mem := CopyAll(Align(q.e, q.v).src, Align(q.e, q.v).dst, w.mem)))
  {
    hide GathersAt, ReadList, Passed, Within, ReadRequest, CopyAll, Gathered, CopiesFit, Align, AllFit;
    GathersEnd(q, w.mem);
  }

  // ----- what a chain can touch -----

  ghost predicate Undamaged(q: Request, store: seq<byte>)
    requires q.e.ps > 0
  {
    && |store| == |q.store|
    && forall x :: 0 <= x < |store| && !Touched(q.e, q.v, x) ==> store[x] == q.store[x]
  }

  // An address of the caller's that the request has no business to change.
  ghost predicate Spared(q: Request, a: int) {
    0 <= a < q.e.top && (q.e.isWrite || forall k :: 0 <= k < |q.v| ==> !Fills(q.v[k], a))
  }

  ghost predicate MemoryKept(q: Request, mem: seq<byte>) {
    |mem| == |q.mem| && forall a :: 0 <= a < |mem| && Spared(q, a) ==> mem[a] == q.mem[a]
  }

  ghost predicate Unharmed(q: Request, mem: seq<byte>, store: seq<byte>)
    requires q.e.ps > 0
  {
    Undamaged(q, store) && MemoryKept(q, mem)
  }

  // Every page to read back is also a piece.
  ghost predicate ReadsArePieces(p: Plan) {
    forall i :: 0 <= i < |p.rbw| ==> p.rbw[i] in p.aligned
  }

  lemma RangeReadsArePieces(e: Env, p: Plan, r: Iovec)
    requires ValidEnv(e) && ReadsArePieces(p)
    ensures ReadsArePieces(AddRange(e, p, r))
  {}

  lemma {:induction false} AlignReadsArePieces(e: Env, v: seq<Iovec>)
    requires ValidEnv(e)
    ensures ReadsArePieces(Align(e, v))
  {
    if v != [] {
      AlignReadsArePieces(e, v[..|v| - 1]);
      RangeReadsArePieces(e, Align(e, v[..|v| - 1]), v[|v| - 1]);
    }
  }

  lemma ReadsCoverPieces(q: Request, x: nat)
    requires ValidEnv(q.e) && Covered(ReadList(q), x)
    ensures Covered(Pieces(q), x)
  {
    var p, r := Align(q.e, q.v), ReadList(q);
    AlignReadsArePieces(q.e, q.v);
    var k :| 0 <= k < |r| && r[k].Covers(x);
    assert r[k] == p.rbw[k] && p.rbw[k] in p.aligned;
    var j :| 0 <= j < |p.aligned| && p.aligned[j] == p.rbw[k];
    assert p.aligned[j].Covers(x);
  }

  lemma BatchCovers(list: seq<Iovec>, cursor: nat, iovs: seq<Iovec>, x: nat)
    requires IsBatch(list, cursor, iovs) && Covered(iovs, x)
    ensures Covered(list, x)
  {}

  // The operation at the head of a write covers only pages the ranges touch.
  lemma HeadCoversTouched(q: Request, w: View, x: nat)
    requires q.e.isWrite && Running(q, w, false) && Covered(w.Head().iovs, x)
    ensures Touched(q.e, q.v, x)
  {
    hide ReadList, FirstBatch, Pieces, ReadsAt, WritesAt, GathersAt, Covered, WriteRequest, ReadRequest, Outcome,
         MaxEnd, History, Touched, Sorted;
    RequestEnv(q);
    var h := w.Head();
    match h.pp {
      case ReadBeforeWritePP =>
        BatchCovers(ReadList(q), w.readBack, h.iovs, x);
        ReadsCoverPieces(q, x);
        PiecesCover(q, x);
      case AttrsPP => NothingCovers(x);
      case WritePP =>
        BatchCovers(Pieces(q), w.moved, h.iovs, x);
        PiecesCover(q, x);
    }
  }

  lemma NothingCovers(x: nat)
    ensures !Covered([], x)
  {}

  lemma PiecesCover(q: Request, x: nat)
    requires ValidEnv(q.e) && Sorted(q.e, q.v) && Covered(Pieces(q), x)
    ensures Touched(q.e, q.v, x)
  {
    CoversTouchedPages(q.e, q.v, x);
  }

  lemma ReadsKeep(q: Request, w: View)
    requires Running(q, w, false) && !q.e.isWrite
    ensures w.Head().opcode == Read && w.store == q.store && SizesKept(q, w)
  {
    hide ReadRequest, History, ReadList, Pieces, GathersAt;
  }

  ghost predicate Misses(iovs: seq<Iovec>, a: int) {
    forall k :: 0 <= k < |iovs| ==> !Fills(iovs[k], a)
  }

  lemma ReadBackMisses(q: Request, a: nat)
    requires ValidEnv(q.e) && Sorted(q.e, q.v) && a < q.e.top
    ensures Misses(ReadList(q), a)
  {
    var p := Align(q.e, q.v);
    AlignInv(q.e, q.v);
    forall k | 0 <= k < |ReadList(q)| ensures !Fills(ReadList(q)[k], a) {
      assert RbwOk(q.e, p.rbw[k], p.brk, Frontier(q.v));
    }
  }

  lemma PiecesMiss(q: Request, a: nat)
    requires ReadRequest(q) && Spared(q, a)
    ensures Misses(Pieces(q), a)
  {
    hide PiecesFit, CopiesFromPieces, AllCarried;
    AlignReads(q.e, q.v, |q.store|);
    forall k | 0 <= k < |q.v| ensures Disjoint(q.v[k].base, q.v[k].len, a, 1) {
      assert !Fills(q.v[k], a);
    }
    assert Clear(Align(q.e, q.v), a, 1);
  }

  lemma BatchMisses(list: seq<Iovec>, cursor: nat, iovs: seq<Iovec>, a: int)
    requires IsBatch(list, cursor, iovs) && Misses(list, a)
    ensures Misses(iovs, a)
  {}

  // A read at the head stores into memory only where the request does.
  lemma HeadMissesSpared(q: Request, w: View, a: nat)
    requires Running(q, w, false) && w.Head().opcode == Read && Spared(q, a)
    ensures Misses(w.Head().iovs, a)
  {
    hide ReadList, FirstBatch, Pieces, ReadsAt, WritesAt, GathersAt, WriteRequest, ReadRequest, Outcome, MaxEnd,
         History, Sorted, Misses, IsBatch;
    RequestEnv(q);
    if q.e.isWrite {
      ReadBackMisses(q, a);
      BatchMisses(ReadList(q), w.readBack, w.Head().iovs, a);
    } else {
      PiecesMiss(q, a);
      BatchMisses(Pieces(q), w.moved, w.Head().iovs, a);
    }
  }

  // What an operation leaves outside its own pieces stays undamaged outside the touched pages, and
  // so does the caller's memory.
  lemma StaysUnharmed(q: Request, w: View, mem: seq<byte>, store: seq<byte>)
    requires w.chain != [] && Running(q, w, false) && q.e.ps > 0 && Unharmed(q, w.mem, w.store)
    requires |store| == |w.store| && |mem| == |w.mem|
    requires if w.Head().opcode == Read then store == w.store else mem == w.mem
    requires forall x :: 0 <= x < |store| && !Covered(w.Head().iovs, x) ==> store[x] == w.store[x]
    requires forall a :: 0 <= a < |mem| && Misses(w.Head().iovs, a) ==> mem[a] == w.mem[a]
    ensures Unharmed(q, mem, store)
  {
    hide Running, Covered, Touched, Misses, Spared;
    forall x | 0 <= x < |store| && !Touched(q.e, q.v, x) ensures store[x] == q.store[x] {
      if w.Head().opcode != Read && Covered(w.Head().iovs, x) {
        WritesOnly(q, w);
        HeadCoversTouched(q, w, x);
      }
    }
    forall a | 0 <= a < |mem| && Spared(q, a) ensures mem[a] == q.mem[a] {
      if w.Head().opcode == Read {
        HeadMissesSpared(q, w, a);
      }
    }
  }

  lemma WritesOnly(q: Request, w: View)
    requires Running(q, w, false) && w.Head().opcode != Read
    ensures q.e.isWrite
  {
    hide WriteRequest, ReadRequest, History, ReadList, Pieces, GathersAt;
  }

  // The data copies of a write go into scratch pages only.
  lemma CopiesSpare(q: Request, m: seq<byte>)
    requires WriteRequest(q) && MemoryKept(q, m)
    ensures CopiesFit(Align(q.e, q.v).src, Align(q.e, q.v).dst, |m|)
    ensures MemoryKept(q, CopyAll(Align(q.e, q.v).src, Align(q.e, q.v).dst, m))
  {
    hide CopyAll, CopiesFit, AllUpward, Inv, Align, Reads;
    var p := Align(q.e, q.v);
    ReadyRuns(q.e, q.v, q.mem, q.store, 0);
    InvRuns(q.e, p, q.mem, q.store, Frontier(q.v));
    forall a | 0 <= a < |m| && Spared(q, a) ensures CopyAll(p.src, p.dst, m)[a] == q.mem[a] {
      UpwardKeepsBelow(p.src, p.dst, m, q.e.top, a);
    }
  }

  // A complete read, too.
  lemma GatheredSpares(q: Request, m: seq<byte>)
    requires !q.e.isWrite && q.e.top <= |q.mem| && AllFit(q.v, q.e.top, |q.store|) && Gathered(q.v, q.e.top, q.store, q.mem, m)
    ensures MemoryKept(q, m)
  {}
}
