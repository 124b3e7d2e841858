// A complete write seen by its caller: what became of every byte, in terms of the ranges as given,
// and exactly when that is what was asked for.
module WriteOutcome {
  import opened Transfers
  import opened Paging
  import opened Alignment
  import opened Decomposition
  import opened WriteRefinement
  import opened ReadElision
  import opened WriteChain

  // ----- the naive write, with no order on the ranges -----

  ghost predicate Scattered(v: seq<Iovec>, mem: seq<byte>, s: seq<byte>, s': seq<byte>)
    requires AllFit(v, |mem|, |s|)
  {
    && |s'| == |s|
    && (forall k, x :: 0 <= k < |v| && v[k].Covers(x) ==> s'[x] == mem[v[k].base + (x - v[k].off)])
    && (forall x :: 0 <= x < |s| && !Covered(v, x) ==> s'[x] == s[x])
  }

  lemma WriteAllScatters(v: seq<Iovec>, mem: seq<byte>, s: seq<byte>)
    requires AllFit(v, |mem|, |s|) && Ordered(v)
    ensures Scattered(v, mem, s, WriteAll(v, mem, s))
  {
    var s' := WriteAll(v, mem, s);
    forall k, x | 0 <= k < |v| && v[k].Covers(x) ensures s'[x] == mem[v[k].base + (x - v[k].off)] {
      assert v[k].Fits(|mem|, |s|);
      WriteHits(v, mem, s, k, x);
    }
    forall x | 0 <= x < |s| && !Covered(v, x) ensures s'[x] == s[x] {
      WriteMisses(v, mem, s, x);
    }
  }

  lemma CoveredByPermutation(v: seq<Iovec>, w: seq<Iovec>, x: int)
    requires multiset(v) == multiset(w)
    ensures Covered(v, x) ==> Covered(w, x)
  {
    if Covered(v, x) {
      var k :| 0 <= k < |v| && v[k].Covers(x);
      assert v[k] in multiset(v) && v[k] in multiset(w);
      var j :| 0 <= j < |w| && w[j] == v[k];
    }
  }

  // The order the ranges are listed in makes no difference.
  lemma ScatteredByPermutation(v: seq<Iovec>, w: seq<Iovec>, mem: seq<byte>, s: seq<byte>, s': seq<byte>)
    requires multiset(v) == multiset(w) && AllFit(v, |mem|, |s|) && Scattered(v, mem, s, s')
    ensures AllFit(w, |mem|, |s|) && Scattered(w, mem, s, s')
  {
    forall j | 0 <= j < |w|
      ensures w[j].Fits(|mem|, |s|)
      ensures forall x :: w[j].Covers(x) ==> s'[x] == mem[w[j].base + (x - w[j].off)]
    {
      assert w[j] in multiset(w) && w[j] in multiset(v);
      var k :| 0 <= k < |v| && v[k] == w[j];
      assert v[k].Fits(|mem|, |s|);
    }
    forall x | 0 <= x < |s| && !Covered(w, x) ensures s'[x] == s[x] {
      CoveredByPermutation(v, w, x);
    }
  }

  lemma ScatteredIsUnique(v: seq<Iovec>, mem: seq<byte>, s: seq<byte>, t: seq<byte>, u: seq<byte>)
    requires AllFit(v, |mem|, |s|) && Scattered(v, mem, s, t) && Scattered(v, mem, s, u)
    ensures t == u
  {}

  // ----- the size -----

  function MaxEnd(v: seq<Iovec>): nat {
    if v == [] then 0
    else if MaxEnd(v[..|v| - 1]) > v[|v| - 1].End() then MaxEnd(v[..|v| - 1]) else v[|v| - 1].End()
  }

  lemma {:induction false} MaxEndIsMax(v: seq<Iovec>)
    ensures forall k :: 0 <= k < |v| ==> v[k].End() <= MaxEnd(v)
    ensures v != [] ==> exists k :: 0 <= k < |v| && v[k].End() == MaxEnd(v)
  {
    if v != [] {
      var init := v[..|v| - 1];
      MaxEndIsMax(init);
      assert forall k :: 0 <= k < |init| ==> v[k] == init[k];
      if MaxEnd(init) > v[|v| - 1].End() {
        var k :| 0 <= k < |init| && init[k].End() == MaxEnd(init);
        assert v[k].End() == MaxEnd(v);
      } else {
        assert v[|v| - 1].End() == MaxEnd(v);
      }
    }
  }

  lemma MaxEndOfPermutation(v: seq<Iovec>, w: seq<Iovec>)
    requires multiset(v) == multiset(w)
    ensures MaxEnd(v) <= MaxEnd(w)
  {
    MaxEndIsMax(v);
    MaxEndIsMax(w);
    if v != [] {
      var k :| 0 <= k < |v| && v[k].End() == MaxEnd(v);
      assert v[k] in multiset(v) && v[k] in multiset(w);
      var j :| 0 <= j < |w| && w[j] == v[k];
    }
  }

  function NewSize(size: nat, v: seq<Iovec>): nat {
    if MaxEnd(v) <= size then size else MaxEnd(v)
  }

  // ----- the outcome -----

  // The pages read back in a batch after the first.
  ghost function Late(e: Env, v: seq<Iovec>): (r: seq<Iovec>)
    requires ValidEnv(e)
  {
    Reads(e, v)[BatchSize(Reads(e, v), e.max)..]
  }

  ghost function Outcome(e: Env, v: seq<Iovec>, mem: seq<byte>, store: seq<byte>): (s: seq<byte>)
    requires Ready(e, v, mem, store)
  {
    ChainResult(e, v, mem, store, BatchSize(Reads(e, v), e.max))
  }

  lemma OutcomeScatters(e: Env, v: seq<Iovec>, mem: seq<byte>, store: seq<byte>)
    requires Ready(e, v, mem, store)
    ensures AllFit(v, |mem|, |store|)
    ensures Scattered(v, mem, ZeroedAt(Late(e, v), store), Outcome(e, v, mem, store))
  {
    ChainOutcome(e, v, mem, store, BatchSize(Reads(e, v), e.max));
    WriteAllScatters(v, mem, ZeroedAt(Late(e, v), store));
  }

  lemma ReadyIsZeroPast(e: Env, v: seq<Iovec>, mem: seq<byte>, store: seq<byte>, x: nat)
    requires Ready(e, v, mem, store) && e.size <= x < |store|
    ensures store[x] == 0
  {}

  // Bytes at or past the new size are zero again.
  lemma ZeroPastNewSize(e: Env, v: seq<Iovec>, mem: seq<byte>, store: seq<byte>)
    requires Ready(e, v, mem, store)
    ensures |Outcome(e, v, mem, store)| == |store|
    ensures ZeroPast(Outcome(e, v, mem, store), NewSize(e.size, v))
  {
    hide Ready, Outcome, Late;
    OutcomeScatters(e, v, mem, store);
    MaxEndIsMax(v);
    var s := Outcome(e, v, mem, store);
    forall x | NewSize(e.size, v) <= x < |s| ensures s[x] == 0 {
      forall k | 0 <= k < |v| ensures !v[k].Covers(x) {
        assert v[k].End() <= MaxEnd(v);
      }
      ReadyIsZeroPast(e, v, mem, store, x);
    }
  }

  // ----- when the outcome is the write that was asked for -----

  // For one store: when every byte a late batch covers and the write does not was zero.
  lemma IntactExactlyWhen(e: Env, v: seq<Iovec>, mem: seq<byte>, store: seq<byte>)
    requires Ready(e, v, mem, store)
    ensures AllFit(v, |mem|, |store|)
    ensures Scattered(v, mem, store, Outcome(e, v, mem, store)) <==>
            forall x :: 0 <= x < |store| && Covered(Late(e, v), x) && !Covered(v, x) ==> store[x] == 0
  {
    OutcomeScatters(e, v, mem, store);
  }

  // Bytes of the object on a page read back late that the write leaves alone.
  ghost predicate Endangered(e: Env, v: seq<Iovec>, x: nat)
    requires ValidEnv(e)
  {
    x < e.size && Covered(Late(e, v), x) && !Covered(v, x)
  }

  // A complete write of `v` to `s` does what was asked for.
  ghost predicate Intact(e: Env, v: seq<Iovec>, mem: seq<byte>, s: seq<byte>) {
    Ready(e, v, mem, s) && AllFit(v, |mem|, |s|) && Scattered(v, mem, s, Outcome(e, v, mem, s))
  }

  lemma NoneEndangeredIsSafe(e: Env, v: seq<Iovec>, mem: seq<byte>, s: seq<byte>)
    requires Ready(e, v, mem, s) && forall x: nat :: x < |s| ==> !Endangered(e, v, x)
    ensures Intact(e, v, mem, s)
  {
    hide Late, Outcome, Scattered;
    IntactExactlyWhen(e, v, mem, s);
    forall x | 0 <= x < |s| && Covered(Late(e, v), x) && !Covered(v, x) ensures s[x] == 0 {
      assert !Endangered(e, v, x);
      ReadyIsZeroPast(e, v, mem, s, x);
    }
  }

  function Ones(size: nat, n: nat): (s: seq<byte>)
    ensures |s| == n && forall x :: 0 <= x < n ==> s[x] == if x < size then 1 else 0
  {
    seq(n, x => if x < size then 1 else 0)
  }

  lemma ReadyForAnyContent(e: Env, v: seq<Iovec>, mem: seq<byte>, store: seq<byte>, s: seq<byte>)
    requires Ready(e, v, mem, store) && |s| == |store| && ZeroPast(s, e.size)
    ensures Ready(e, v, mem, s)
  {}

  lemma EndangeredIsUnsafe(e: Env, v: seq<Iovec>, mem: seq<byte>, s: seq<byte>, x: nat)
    requires Ready(e, v, mem, s) && x < |s| && Endangered(e, v, x) && s[x] != 0
    ensures !Intact(e, v, mem, s)
  {
    IntactExactlyWhen(e, v, mem, s);
  }

  // For every store of that size: when there is no such byte at all.
  lemma SafeExactlyWhen(e: Env, v: seq<Iovec>, mem: seq<byte>, store: seq<byte>)
    requires Ready(e, v, mem, store)
    ensures (forall s: seq<byte> :: |s| == |store| && ZeroPast(s, e.size) ==> Intact(e, v, mem, s))
            <==> forall x: nat :: x < |store| ==> !Endangered(e, v, x)
  {
    var ones := Ones(e.size, |store|);
    ReadyForAnyContent(e, v, mem, store, ones);
    forall x: nat | x < |store| && Endangered(e, v, x) ensures !Intact(e, v, mem, ones) {
      EndangeredIsUnsafe(e, v, mem, ones, x);
    }
    if forall x: nat :: x < |store| ==> !Endangered(e, v, x) {
      forall s: seq<byte> | |s| == |store| && ZeroPast(s, e.size) ensures Intact(e, v, mem, s) {
        ReadyForAnyContent(e, v, mem, store, s);
        NoneEndangeredIsSafe(e, v, mem, s);
      }
    }
  }

  // A write whose partial pages all fit in one operation is always safe.
  lemma FewPagesAreSafe(e: Env, v: seq<Iovec>)
    requires ValidEnv(e) && Sorted(e, v) && 2 * |v| * e.ps <= e.max
    ensures Late(e, v) == []
  {
    var p, r := Align(e, v), Reads(e, v);
    EstimatesSuffice(e, v);
    AlignInv(e, v);
    forall k | 0 <= k < |r| ensures r[k].len <= e.ps {
      assert RbwOk(e, p.rbw[k], p.brk, Frontier(v));
    }
    Grows(|r|, 2 * |v|, e.ps);
    ShortListsFit(r, e.ps, e.max);
  }

  // Two one-byte writes into different pages of an object, when one operation moves one page.
  const LOSSY_ENV := Env(4, 4, 8, true, 2)
  const FIRST := Iovec(1, 1, 0)
  const SECOND := Iovec(5, 1, 1)

  lemma LossyPlan()
    ensures Align(LOSSY_ENV, [FIRST, SECOND]) ==
            Plan([Iovec(0, 4, 2), Iovec(4, 4, 6)], [Iovec(0, 4, 2), Iovec(4, 4, 6)],
                 [Iovec(0, 1, 0), Iovec(0, 1, 1)], [Iovec(1, 1, 2), Iovec(1, 1, 6)], [2, 6], 10)
  {
    var v := [FIRST, SECOND];
    var e := LOSSY_ENV;
    assert v[..1] == [FIRST] && [FIRST][..0] == [];
    assert CutOf(e, FIRST) == OnePage && CutOf(e, SECOND) == OnePage;
    var p0 := EmptyPlan(e);
    var p1 := AddPartial(e, p0, 1, 1, 0);
    assert p1 == Plan([Iovec(0, 4, 2)], [Iovec(0, 4, 2)], [Iovec(0, 1, 0)], [Iovec(1, 1, 2)], [2], 6);
    assert Align(e, [FIRST]) == AddRange(e, Align(e, []), FIRST) == p1;
    var p2 := AddPartial(e, p1, 5, 1, 1);
    assert Align(e, v) == AddRange(e, Align(e, [FIRST]), SECOND) == p2;
  }

  // The second page is written back as zeros, and byte 4 of the object is lost.
  lemma LossExample(mem: seq<byte>, store: seq<byte>)
    requires |mem| == 10 && (forall a :: 2 <= a < 10 ==> mem[a] == 0)
    requires |store| == 8 && store[4] == 7
    ensures Ready(LOSSY_ENV, [FIRST, SECOND], mem, store) && !Covered([FIRST, SECOND], 4)
    ensures Outcome(LOSSY_ENV, [FIRST, SECOND], mem, store)[4] == 0
  {
    hide Align;
    var e, v := LOSSY_ENV, [FIRST, SECOND];
    LossyPlan();
    var p := Align(e, v);
    assert Ready(e, v, mem, store);
    assert !CoveredAt(p.dst, 2, 0);
    assert !Reached(p.rbw, p.dst, 0) && !Reached(p.rbw, p.dst, 1);
    assert Reads(e, v) == p.rbw;
    assert BatchSize(p.rbw[1..], 0) == 0;
    assert BatchSize(p.rbw, 4) == 1;
    assert Late(e, v)[0].Covers(4);
    OutcomeScatters(e, v, mem, store);
  }
}
