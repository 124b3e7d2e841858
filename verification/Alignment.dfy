// How byte ranges become page-aligned pieces (motr_obj_iovec_adjust and the functions it calls),
// in a normal form: every range is an unaligned head, a body of whole pages and an unaligned tail,
// each possibly empty. Whole pages are pieces of the caller's memory, cut to the size one
// operation may move; a head or tail goes through a scratch page, shared with the previous range
// when that one ended in the same page.
module Alignment {
  import opened Transfers
  import opened Paging

  // Page size, largest transfer of one operation, current object size, direction, and the end of
  // the caller's memory: scratch pages are allocated from there on.
  datatype Env = Env(ps: nat, max: nat, size: nat, isWrite: bool, top: nat)

  // What the cutting itself needs, and what it takes for the cuts to stay on the page grid.
  predicate Positive(e: Env) {
    0 < e.ps && 0 < e.max
  }

  predicate ValidEnv(e: Env) {
    0 < e.ps <= e.max && Aligned(e.max, e.ps)
  }

  datatype Plan = Plan(
    aligned: seq<Iovec>,  // the pieces to read or write
    rbw: seq<Iovec>,      // the pages to read before writing
    src: seq<Iovec>,      // the data copies, from ...
    dst: seq<Iovec>,      // ... to
    pages: seq<nat>,      // the scratch pages
    brk: nat)             // end of the memory allocated so far
  {
    // The two sides of a data copy: the caller's memory and the scratch page.
    function User(e: Env): seq<Iovec> { if e.isWrite then src else dst }
    function Page(e: Env): seq<Iovec> { if e.isWrite then dst else src }
  }

  function EmptyPlan(e: Env): Plan {
    Plan([], [], [], [], [], e.top)
  }

  predicate SharesPage(p: Plan, page: nat) {
    p.aligned != [] && p.aligned[|p.aligned| - 1].off == page
  }

  function ScratchBase(p: Plan, page: nat): nat {
    if SharesPage(p, page) then p.aligned[|p.aligned| - 1].base else p.brk
  }

  function WithPage(e: Env, p: Plan, page: nat): Plan {
    if SharesPage(p, page) then p
    else
      var v := Iovec(page, e.ps, p.brk);
      p.(aligned := p.aligned + [v],
         pages := p.pages + [p.brk],
         brk := p.brk + e.ps,
         rbw := if e.isWrite && page < e.size then p.rbw + [v] else p.rbw)
  }

  function WithCopy(e: Env, p: Plan, user: Iovec, page: Iovec): Plan {
    if e.isWrite then p.(src := p.src + [user], dst := p.dst + [page])
    else p.(src := p.src + [page], dst := p.dst + [user])
  }

  // Part of one page.
  function AddPartial(e: Env, p: Plan, off: nat, len: nat, base: nat): Plan
    requires e.ps > 0
  {
    var page := PageOf(off, e.ps);
    WithCopy(e, WithPage(e, p, page), Iovec(0, len, base), Iovec(off - page, len, ScratchBase(p, page)))
  }

  // A run of whole pages in pieces of at most `max` bytes.
  function Chunks(off: nat, len: nat, base: nat, max: nat): (c: seq<Iovec>)
    requires max > 0
    decreases len
  {
    if len == 0 then []
    else if len <= max then [Iovec(off, len, base)]
    else [Iovec(off, max, base)] + Chunks(off + max, len - max, base + max, max)
  }

  function AddClone(e: Env, p: Plan, v: Iovec): Plan
    requires e.max > 0
  {
    p.(aligned := p.aligned + Chunks(v.off, v.len, v.base, e.max))
  }

  // The cut of a range into head, body and tail; the head alone when the range stays inside a page.
  datatype Cut = OnePage | ThreeParts(first: nat, last: nat)

  function CutOf(e: Env, r: Iovec): Cut
    requires e.ps > 0
  {
    var first, last := NextPage(r.off, e.ps), PageOf(r.End(), e.ps);
    if last < first || (last == first && !Aligned(r.off, e.ps) && last == r.End()) then OnePage
    else ThreeParts(first, last)
  }

  function AddHead(e: Env, p: Plan, r: Iovec, first: nat): Plan
    requires e.ps > 0
  {
    if r.off < first then AddPartial(e, p, r.off, first - r.off, r.base) else p
  }

  function Body(r: Iovec, first: nat, last: nat): Iovec
    requires r.off <= first <= last
  {
    Iovec(first, last - first, r.base + (first - r.off))
  }

  function AddTail(e: Env, p: Plan, r: Iovec, last: nat): Plan
    requires e.ps > 0 && r.off <= last
  {
    if last < r.End() then AddPartial(e, p, last, r.End() - last, r.base + (last - r.off)) else p
  }

  function AddRange(e: Env, p: Plan, r: Iovec): Plan
    requires e.ps > 0 && e.max > 0
  {
    if r.len == 0 then p
    else match CutOf(e, r)
      case OnePage => AddPartial(e, p, r.off, r.len, r.base)
      case ThreeParts(first, last) =>
        AddTail(e, AddClone(e, AddHead(e, p, r, first), Body(r, first, last)), r, last)
  }

  function Align(e: Env, v: seq<Iovec>): Plan
    requires e.ps > 0 && e.max > 0
  {
    if v == [] then EmptyPlan(e) else AddRange(e, Align(e, v[..|v| - 1]), v[|v| - 1])
  }

  // ----- what every step keeps -----

  predicate Direct(e: Env, v: Iovec) { v.base + v.len <= e.top }

  predicate Scratch(e: Env, v: Iovec, brk: nat) {
    v.len == e.ps && e.top <= v.base && v.base + e.ps <= brk
  }

  // `hi` is the end of the last byte range done.
  predicate PieceOk(e: Env, v: Iovec, brk: nat, hi: nat)
    requires e.ps > 0
  {
    && 0 < v.len <= e.max && Aligned(v.off, e.ps) && Aligned(v.len, e.ps)
    && ((Direct(e, v) && v.End() <= hi) || (Scratch(e, v, brk) && v.off < hi))
  }

  ghost predicate PiecesOk(e: Env, p: Plan, hi: nat)
    requires e.ps > 0
  {
    && e.top <= p.brk
    && (forall k :: 0 <= k < |p.aligned| ==> PieceOk(e, p.aligned[k], p.brk, hi))
    && Ordered(p.aligned)
    && (!Aligned(hi, e.ps) ==> SharesPage(p, PageOf(hi, e.ps)))
  }

  // Scratch pages are allocated upwards, so a piece on a scratch page lies above all before it.
  ghost predicate ScratchOk(e: Env, p: Plan) {
    && (forall j, k :: 0 <= j < k < |p.aligned| && e.top <= p.aligned[k].base ==>
          p.aligned[j].base + p.aligned[j].len <= p.aligned[k].base)
    && (p.aligned != [] && e.top <= p.aligned[|p.aligned| - 1].base ==> p.aligned[|p.aligned| - 1].base + e.ps == p.brk)
  }

  predicate CopyOk(e: Env, user: Iovec, page: Iovec, brk: nat) {
    && user.off == 0 && user.base + user.len <= e.top && user.len == page.len && 0 < page.len
    && e.top <= page.base && page.base + e.ps <= brk && page.off + page.len <= e.ps
  }

  // Copies run through the scratch pages in allocation order and through each page left to right.
  predicate CopyBefore(a: Iovec, b: Iovec) {
    a.base <= b.base && (a.base == b.base ==> a.off + a.len <= b.off)
  }

  ghost predicate CopiesOk(e: Env, p: Plan, hi: nat) {
    && |p.src| == |p.dst|
    && (forall i :: 0 <= i < |p.src| ==> CopyOk(e, p.User(e)[i], p.Page(e)[i], p.brk))
    && (forall i, j :: 0 <= i < j < |p.src| ==> CopyBefore(p.Page(e)[i], p.Page(e)[j]))
    && (p.aligned != [] ==>
          var l := p.aligned[|p.aligned| - 1];
          forall i :: 0 <= i < |p.src| && p.Page(e)[i].base == l.base ==>
            l.off + p.Page(e)[i].off + p.Page(e)[i].len <= hi)
  }

  predicate RbwOk(e: Env, v: Iovec, brk: nat, hi: nat)
    requires e.ps > 0
  {
    Aligned(v.off, e.ps) && v.len == e.ps && v.off < e.size && v.off < hi && e.top <= v.base && v.base + e.ps <= brk
  }

  ghost predicate RbwsOk(e: Env, p: Plan, hi: nat)
    requires e.ps > 0
  {
    && (forall i :: 0 <= i < |p.rbw| ==> RbwOk(e, p.rbw[i], p.brk, hi))
    && (forall i, j :: 0 <= i < j < |p.rbw| ==>
          p.rbw[i].off + e.ps <= p.rbw[j].off && p.rbw[i].base + e.ps <= p.rbw[j].base)
  }

  ghost predicate Inv(e: Env, p: Plan, hi: nat)
    requires e.ps > 0
  {
    PiecesOk(e, p, hi) && ScratchOk(e, p) && CopiesOk(e, p, hi) && RbwsOk(e, p, hi)
  }

  // ----- the page a partial range needs -----

  // The previous piece sits on the same page only when it is a scratch page.
  lemma SharedIsScratch(e: Env, p: Plan, hi: nat, off: nat)
    requires ValidEnv(e) && PiecesOk(e, p, hi) && hi <= off && SharesPage(p, PageOf(off, e.ps))
    ensures Scratch(e, p.aligned[|p.aligned| - 1], p.brk)
  {
    var l := p.aligned[|p.aligned| - 1];
    assert PieceOk(e, l, p.brk, hi);
    if Direct(e, l) && l.End() <= hi {
      PagesApart(0, l.len, e.ps);
    }
  }

  // Otherwise every page used so far lies before it.
  lemma FreshPage(e: Env, p: Plan, hi: nat, off: nat)
    requires ValidEnv(e) && PiecesOk(e, p, hi) && RbwsOk(e, p, hi) && hi <= off
    requires !SharesPage(p, PageOf(off, e.ps))
    ensures forall k :: 0 <= k < |p.aligned| ==> p.aligned[k].End() <= PageOf(off, e.ps)
    ensures forall i :: 0 <= i < |p.rbw| ==> p.rbw[i].off + e.ps <= PageOf(off, e.ps)
  {
    var page := PageOf(off, e.ps);
    if page < hi {
      PageOfWithin(hi, page, e.ps);
      if Aligned(hi, e.ps) {
        PagesApart(page, hi, e.ps);
      }
    }
    assert hi <= page;
    forall k | 0 <= k < |p.aligned| ensures p.aligned[k].End() <= page {
      assert PieceOk(e, p.aligned[k], p.brk, hi);
      if p.aligned[k].off < page {
        PagesApart(p.aligned[k].off, page, e.ps);
      }
    }
    forall i | 0 <= i < |p.rbw| ensures p.rbw[i].off + e.ps <= page {
      assert RbwOk(e, p.rbw[i], p.brk, hi);
      PagesApart(p.rbw[i].off, page, e.ps);
    }
  }

  // A partial range lies in one page.
  predicate InOnePage(e: Env, off: nat, len: nat)
    requires e.ps > 0
  {
    0 < len && off + len <= PageOf(off, e.ps) + e.ps
  }

  lemma PartialPieces(e: Env, p: Plan, off: nat, len: nat, base: nat, hi: nat)
    requires ValidEnv(e) && Inv(e, p, hi) && hi <= off && InOnePage(e, off, len)
    ensures PiecesOk(e, AddPartial(e, p, off, len, base), off + len)
  {
    hide ScratchOk, CopiesOk;
    var page, q := PageOf(off, e.ps), AddPartial(e, p, off, len, base);
    if SharesPage(p, page) {
      SharedIsScratch(e, p, hi, off);
    } else {
      FreshPage(e, p, hi, off);
      Quotient(e.ps, 1, 0, e.ps);
    }
    forall k | 0 <= k < |q.aligned| ensures PieceOk(e, q.aligned[k], q.brk, off + len) {
      assert k < |p.aligned| ==> PieceOk(e, p.aligned[k], p.brk, hi);
    }
    if !Aligned(off + len, e.ps) {
      if off + len == page + e.ps {
        Quotient(e.ps, 1, 0, e.ps);
        AlignedSum(page, e.ps, e.ps);
      }
      PageOfWithin(off + len, page, e.ps);
    }
  }

  lemma PartialScratch(e: Env, p: Plan, off: nat, len: nat, base: nat, hi: nat)
    requires ValidEnv(e) && Inv(e, p, hi) && hi <= off && InOnePage(e, off, len)
    ensures ScratchOk(e, AddPartial(e, p, off, len, base))
  {
    hide CopiesOk, RbwsOk;
    if !SharesPage(p, PageOf(off, e.ps)) {
      forall k | 0 <= k < |p.aligned| ensures p.aligned[k].base + p.aligned[k].len <= p.brk {
        assert PieceOk(e, p.aligned[k], p.brk, hi);
      }
    }
  }

  lemma PartialCopies(e: Env, p: Plan, off: nat, len: nat, base: nat, hi: nat)
    requires ValidEnv(e) && Inv(e, p, hi) && hi <= off && InOnePage(e, off, len) && base + len <= e.top
    ensures CopiesOk(e, AddPartial(e, p, off, len, base), off + len)
  {
    hide RbwsOk;
    var page, q, n := PageOf(off, e.ps), AddPartial(e, p, off, len, base), |p.src|;
    if SharesPage(p, page) {
      SharedIsScratch(e, p, hi, off);
    }
    var d := q.Page(e)[n];
    forall i | 0 <= i < n
      ensures q.Page(e)[i] == p.Page(e)[i] && q.User(e)[i] == p.User(e)[i]
      ensures CopyOk(e, q.User(e)[i], q.Page(e)[i], q.brk)
      ensures CopyBefore(q.Page(e)[i], d)
    {
      assert CopyOk(e, p.User(e)[i], p.Page(e)[i], p.brk);
    }
  }

  lemma PartialRbws(e: Env, p: Plan, off: nat, len: nat, base: nat, hi: nat)
    requires ValidEnv(e) && Inv(e, p, hi) && hi <= off && InOnePage(e, off, len)
    ensures RbwsOk(e, AddPartial(e, p, off, len, base), off + len)
  {
    var page, q, n := PageOf(off, e.ps), AddPartial(e, p, off, len, base), |p.rbw|;
    if !SharesPage(p, page) {
      FreshPage(e, p, hi, off);
    }
    forall i | 0 <= i < |q.rbw| ensures RbwOk(e, q.rbw[i], q.brk, off + len) {
      assert i < n ==> RbwOk(e, p.rbw[i], p.brk, hi);
    }
    forall i, j | 0 <= i < j < |q.rbw|
      ensures q.rbw[i].off + e.ps <= q.rbw[j].off && q.rbw[i].base + e.ps <= q.rbw[j].base
    {
      assert RbwOk(e, p.rbw[i], p.brk, hi);
    }
  }

  lemma PartialInv(e: Env, p: Plan, off: nat, len: nat, base: nat, hi: nat)
    requires ValidEnv(e) && Inv(e, p, hi) && hi <= off && InOnePage(e, off, len) && base + len <= e.top
    ensures Inv(e, AddPartial(e, p, off, len, base), off + len)
  {
    PartialPieces(e, p, off, len, base, hi);
    PartialScratch(e, p, off, len, base, hi);
    PartialCopies(e, p, off, len, base, hi);
    PartialRbws(e, p, off, len, base, hi);
  }

  // ----- whole pages -----

  function AddPiece(p: Plan, v: Iovec): Plan {
    p.(aligned := p.aligned + [v])
  }

  predicate WholePages(e: Env, v: Iovec)
    requires e.ps > 0
  {
    Aligned(v.off, e.ps) && Aligned(v.len, e.ps) && v.base + v.len <= e.top
  }

  lemma PiecePieces(e: Env, p: Plan, v: Iovec, hi: nat)
    requires ValidEnv(e) && Inv(e, p, hi) && hi <= v.off && WholePages(e, v) && 0 < v.len <= e.max
    ensures PiecesOk(e, AddPiece(p, v), v.End()) && ScratchOk(e, AddPiece(p, v))
  {
    hide CopiesOk;
    var q := AddPiece(p, v);
    PageOfWithin(v.off, v.off, e.ps);
    if SharesPage(p, v.off) {
      SharedIsScratch(e, p, hi, v.off);
    }
    FreshPage(e, p, hi, v.off);
    AlignedSum(v.off, v.len, e.ps);
    forall k | 0 <= k < |q.aligned| ensures PieceOk(e, q.aligned[k], q.brk, v.End()) {
      assert k < |p.aligned| ==> PieceOk(e, p.aligned[k], p.brk, hi);
    }
  }

  lemma PieceInv(e: Env, p: Plan, v: Iovec, hi: nat)
    requires ValidEnv(e) && Inv(e, p, hi) && hi <= v.off && WholePages(e, v) && 0 < v.len <= e.max
    ensures Inv(e, AddPiece(p, v), v.End())
  {
    var q := AddPiece(p, v);
    PiecePieces(e, p, v, hi);
    assert q.Page(e) == p.Page(e) && q.User(e) == p.User(e);
    assert CopiesOk(e, q, v.End()) by {
      forall i | 0 <= i < |q.src| ensures q.Page(e)[i].base != v.base {
        assert CopyOk(e, p.User(e)[i], p.Page(e)[i], p.brk);
      }
    }
    forall i | 0 <= i < |q.rbw| ensures RbwOk(e, q.rbw[i], q.brk, v.End()) {
      assert RbwOk(e, p.rbw[i], p.brk, hi);
    }
  }

  // The first piece of a run, and what is left of it.
  lemma ChunkStep(e: Env, p: Plan, v: Iovec)
    requires ValidEnv(e) && WholePages(e, v) && 0 < v.len
    ensures var n := if v.len <= e.max then v.len else e.max;
            var c, rest := Iovec(v.off, n, v.base), Iovec(v.off + n, v.len - n, v.base + n);
            && WholePages(e, c) && WholePages(e, rest)
            && AddClone(e, p, v) == AddClone(e, AddPiece(p, c), rest)
  {
    var n := if v.len <= e.max then v.len else e.max;
    AlignedSum(v.off, n, e.ps);
    AlignedSum(v.len, n, e.ps);
    var c := Iovec(v.off, n, v.base);
    var tail := Chunks(v.off + n, v.len - n, v.base + n, e.max);
    assert Chunks(v.off, v.len, v.base, e.max) == [c] + tail;
    assert p.aligned + ([c] + tail) == (p.aligned + [c]) + tail;
  }

  lemma CloneOfNothing(e: Env, p: Plan, v: Iovec)
    requires Positive(e) && v.len == 0
    ensures AddClone(e, p, v) == p
  {}

  lemma {:induction false} CloneInv(e: Env, p: Plan, v: Iovec, hi: nat)
    requires ValidEnv(e) && Inv(e, p, hi) && hi <= v.off && WholePages(e, v)
    ensures Inv(e, AddClone(e, p, v), if v.len == 0 then hi else v.End())
    decreases v.len
  {
    hide Inv, AddClone;
    if v.len == 0 {
      CloneOfNothing(e, p, v);
    } else {
      var n := if v.len <= e.max then v.len else e.max;
      var c, rest := Iovec(v.off, n, v.base), Iovec(v.off + n, v.len - n, v.base + n);
      ChunkStep(e, p, v);
      PieceInv(e, p, c, hi);
      CloneInv(e, AddPiece(p, c), rest, c.End());
    }
  }

  // ----- one byte range -----

  lemma CutFits(e: Env, r: Iovec)
    requires Positive(e) && 0 < r.len && r.base + r.len <= e.top
    ensures match CutOf(e, r)
            case OnePage => InOnePage(e, r.off, r.len)
            case ThreeParts(first, last) =>
              && r.off <= first <= last <= r.End()
              && (r.off < first ==> InOnePage(e, r.off, first - r.off))
              && WholePages(e, Body(r, first, last))
              && (last < r.End() ==> InOnePage(e, last, r.End() - last))
  {
    var first, last := NextPage(r.off, e.ps), PageOf(r.End(), e.ps);
    if last < first {
      PagesApart(last, first, e.ps);
      if Aligned(r.off, e.ps) {
        PageOfAbove(r.off, r.End(), e.ps);
      }
    } else {
      AlignedSum(last, first, e.ps);
      PageOfWithin(last, last, e.ps);
    }
  }

  lemma HeadInv(e: Env, p: Plan, r: Iovec, first: nat, hi: nat)
    requires ValidEnv(e) && Inv(e, p, hi) && hi <= r.off && r.base + r.len <= e.top
    requires r.off <= first <= r.End() && (r.off < first ==> InOnePage(e, r.off, first - r.off))
    ensures Inv(e, AddHead(e, p, r, first), if r.off < first then first else hi)
  {
    hide Inv, AddPartial;
    if r.off < first {
      PartialInv(e, p, r.off, first - r.off, r.base, hi);
    }
  }

  lemma TailInv(e: Env, p: Plan, r: Iovec, last: nat, hi: nat)
    requires ValidEnv(e) && Inv(e, p, hi) && hi <= last && r.base + r.len <= e.top
    requires r.off <= last <= r.End() && (last < r.End() ==> InOnePage(e, last, r.End() - last))
    ensures Inv(e, AddTail(e, p, r, last), if last < r.End() then r.End() else hi)
  {
    hide Inv, AddPartial;
    if last < r.End() {
      PartialInv(e, p, last, r.End() - last, r.base + (last - r.off), hi);
    }
  }

  lemma RangeInv(e: Env, p: Plan, r: Iovec, hi: nat)
    requires ValidEnv(e) && Inv(e, p, hi) && hi <= r.off && r.base + r.len <= e.top
    ensures Inv(e, AddRange(e, p, r), if r.len == 0 then hi else r.End())
  {
    hide Inv;
    if r.len > 0 {
      CutFits(e, r);
      match CutOf(e, r)
      case OnePage => PartialInv(e, p, r.off, r.len, r.base, hi);
      case ThreeParts(first, last) =>
        HeadInv(e, p, r, first, hi);
        var h, at := AddHead(e, p, r, first), if r.off < first then first else hi;
        CloneInv(e, h, Body(r, first, last), at);
        TailInv(e, AddClone(e, h, Body(r, first, last)), r, last, if first == last then at else last);
    }
  }

  // ----- a whole vector -----

  ghost predicate Sorted(e: Env, v: seq<Iovec>) {
    Ordered(v) && forall k :: 0 <= k < |v| ==> v[k].base + v[k].len <= e.top
  }

  // End of the last byte in the vector.
  function Frontier(v: seq<Iovec>): nat {
    if v == [] then 0
    else if v[|v| - 1].len > 0 then v[|v| - 1].End()
    else Frontier(v[..|v| - 1])
  }

  lemma SortedInit(e: Env, v: seq<Iovec>)
    requires Sorted(e, v) && v != []
    ensures Sorted(e, v[..|v| - 1])
    ensures Frontier(v[..|v| - 1]) <= v[|v| - 1].off
  {
    var init := v[..|v| - 1];
    assert forall k :: 0 <= k < |init| ==> init[k] == v[k];
    FrontierBelow(init, v[|v| - 1].off);
  }

  lemma {:induction false} FrontierBelow(v: seq<Iovec>, bound: nat)
    requires forall k :: 0 <= k < |v| ==> v[k].End() <= bound
    ensures Frontier(v) <= bound
  {
    if v != [] && v[|v| - 1].len == 0 {
      FrontierBelow(v[..|v| - 1], bound);
    }
  }

  lemma {:induction false} AlignInv(e: Env, v: seq<Iovec>)
    requires ValidEnv(e) && Sorted(e, v)
    ensures Inv(e, Align(e, v), Frontier(v))
  {
    if v == [] {
      Quotient(0, 0, 0, e.ps);
    } else {
      SortedInit(e, v);
      AlignInv(e, v[..|v| - 1]);
      RangeInv(e, Align(e, v[..|v| - 1]), v[|v| - 1], Frontier(v[..|v| - 1]));
    }
  }
}
