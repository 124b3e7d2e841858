// Fair runs of the pipeline: when no thread that can go on again and again is passed over for
// ever, all threads exit, however often readers wake up spuriously.
module Liveness {
  import opened Pipeline

  // What happens in a state: nothing, or a step.
  datatype Move = Idle | Do(a: Act)

  // An infinite run.
  datatype Trace = Trace(st: nat -> State, move: nat -> Move)

  predicate Goes(s: State, m: Move, t: State) {
    match m
    case Idle => t == s
    case Do(a) => Counted(s) && Enabled(s, a) && t == Next(s, a)
  }

  ghost predicate Runs(tr: Trace) {
    forall n: nat {:trigger tr.move(n)} :: Goes(tr.st(n), tr.move(n), tr.st(n + 1))
  }

  // ----- fairness -----

  predicate CanMove(s: State, t: Tid) {
    match t
    case Nobody => false
    case Writer(i) => WEnabled(s, i)
    case Reader(i) => REnabled(s, i)
  }

  predicate Moves(m: Move, t: Tid) {
    match m
    case Do(WStep(i, _)) => t == Writer(i)
    case Do(RStep(i, _, _)) => t == Reader(i)
    case _ => false
  }

  ghost predicate CanAfter(tr: Trace, t: Tid, n: nat) {
    exists m: nat :: n <= m && CanMove(tr.st(m), t)
  }

  ghost predicate MovesAfter(tr: Trace, t: Tid, n: nat) {
    exists m: nat :: n <= m && Moves(tr.move(m), t)
  }

  // A thread that can step again and again does step again and again.
  ghost predicate FairTo(tr: Trace, t: Tid) {
    (forall n: nat :: CanAfter(tr, t, n)) ==> forall n: nat :: MovesAfter(tr, t, n)
  }

  ghost predicate Fair(tr: Trace) {
    forall t: Tid :: FairTo(tr, t)
  }

  lemma MovesInTime(tr: Trace, t: Tid, n: nat)
    requires FairTo(tr, t) && forall m: nat :: n <= m ==> CanAfter(tr, t, m)
    ensures MovesAfter(tr, t, n)
  {
    forall k: nat ensures CanAfter(tr, t, k) {
      var k' := if k < n then n else k;
      assert CanAfter(tr, t, k');
      var m: nat :| k' <= m && CanMove(tr.st(m), t);
    }
  }

  // ----- from some point on nothing useful happens -----

  function Useful(s: State): nat { EffortOf(s, Effort(1, false)) }

  predicate Quiet(s: State, m: Move) {
    match m
    case Idle => true
    case Do(WStep(_, _)) => false
    case Do(RStep(i, _, _)) => REnabled(s, i) && Futile(s, i)
    case Do(Spurious(_)) => true
  }

  lemma QuietOrLess(s: State, m: Move, t: State)
    requires Goes(s, m, t)
    ensures if Quiet(s, m) then Useful(t) == Useful(s) else Useful(t) < Useful(s)
  {
    hide EffortOf, WNext, RNext, WEnabled, REnabled, Futile;
    match m
    case Do(WStep(i, ok)) => WriterProgress(s, i, ok, Effort(1, false));
    case Do(RStep(i, ok, same)) => ReaderProgress(s, i, ok, same, Effort(1, false));
    case Do(Spurious(i)) => SpuriousCost(s, i, Effort(1, false));
    case Idle =>
  }

  predicate QuietIn(tr: Trace, n: nat) { Quiet(tr.st(n), tr.move(n)) }

  ghost predicate QuietFrom(tr: Trace, n: nat) {
    forall m: nat :: n <= m ==> QuietIn(tr, m)
  }

  lemma {:induction false} NeverMore(tr: Trace, n: nat, m: nat)
    requires Runs(tr) && n <= m
    ensures Useful(tr.st(m)) <= Useful(tr.st(n))
    decreases m - n
  {
    hide Useful, Goes, Quiet;
    if n < m {
      NeverMore(tr, n, m - 1);
      QuietOrLess(tr.st(m - 1), tr.move(m - 1), tr.st(m));
    }
  }

  lemma LaterUseful(tr: Trace, k: nat) returns (m: nat)
    requires Runs(tr) && !QuietFrom(tr, k)
    ensures Useful(tr.st(m)) < Useful(tr.st(k))
  {
    hide Useful, Goes, Quiet;
    var i: nat :| k <= i && !QuietIn(tr, i);
    NeverMore(tr, k, i);
    QuietOrLess(tr.st(i), tr.move(i), tr.st(i + 1));
    m := i + 1;
  }

  lemma Settles(tr: Trace, k: nat) returns (n: nat)
    requires Runs(tr)
    ensures QuietFrom(tr, n)
    decreases Useful(tr.st(k))
  {
    hide Useful, QuietFrom, Runs;
    if QuietFrom(tr, k) {
      n := k;
    } else {
      var m := LaterUseful(tr, k);
      n := Settles(tr, m);
    }
  }

  // ----- what stays the same then -----

  // A fair run, from `n` on quiet.
  ghost predicate Tail(tr: Trace, n: nat) {
    Runs(tr) && Fair(tr) && QuietFrom(tr, n)
  }

  lemma QuietAt(tr: Trace, n: nat, m: nat)
    requires Tail(tr, n) && n <= m
    ensures Goes(tr.st(m), tr.move(m), tr.st(m + 1)) && Quiet(tr.st(m), tr.move(m))
  {
    hide Goes, Quiet;
    assert QuietIn(tr, m);
  }

  predicate Cycling(pc: RPc) { pc.RWait? || pc.RWoken? || pc.RCheck? }

  // The same but for readers that wake up and wait again, and the lock they take.
  ghost predicate Alike(s: State, t: State) {
    && t.ws == s.ws && t.wMutex == s.wMutex && t.rCount == s.rCount && (Accounted(t) <==> Accounted(s))
    && |t.rs| == |s.rs| && forall i :: 0 <= i < |s.rs| ==> t.rs[i] == s.rs[i] || (Cycling(s.rs[i]) && Cycling(t.rs[i]))
  }

  lemma QuietStep(s: State, m: Move, t: State)
    requires Goes(s, m, t) && Quiet(s, m)
    ensures Alike(s, t)
  {}

  lemma StillAlike(s: State, t: State, u: State)
    requires Alike(s, t) && Alike(t, u)
    ensures Alike(s, u)
  {}

  lemma {:induction false} StaysAlike(tr: Trace, n: nat, m: nat)
    requires Tail(tr, n) && n <= m
    ensures Alike(tr.st(n), tr.st(m))
    decreases m - n
  {
    hide Tail, Goes, Quiet, Alike;
    if n == m {
      AlikeItself(tr.st(n));
    } else {
      StaysAlike(tr, n, m - 1);
      QuietAt(tr, n, m - 1);
      QuietStep(tr.st(m - 1), tr.move(m - 1), tr.st(m));
      StillAlike(tr.st(n), tr.st(m - 1), tr.st(m));
    }
  }

  lemma AlikeItself(s: State)
    ensures Alike(s, s)
  {}

  // Where reader `j` is.
  predicate At(s: State, j: nat, pc: RPc) { j < |s.rs| && s.rs[j] == pc }

  lemma OthersStay(s: State, m: Move, t: State, j: nat, pc: RPc)
    requires Goes(s, m, t) && Quiet(s, m) && At(s, j, pc) && pc != RWait && !Moves(m, Reader(j))
    ensures At(t, j, pc)
  {}

  lemma {:induction false} StaysPut(tr: Trace, n: nat, j: nat, pc: RPc, k: nat, m: nat)
    requires Tail(tr, n) && n <= k <= m && At(tr.st(k), j, pc) && pc != RWait
    requires forall i: nat :: k <= i < m ==> !Moves(tr.move(i), Reader(j))
    ensures At(tr.st(m), j, pc)
    decreases m - k
  {
    hide Tail, Goes, Quiet, Moves, At;
    if k < m {
      StaysPut(tr, n, j, pc, k, m - 1);
      QuietAt(tr, n, m - 1);
      OthersStay(tr.st(m - 1), tr.move(m - 1), tr.st(m), j, pc);
    }
  }

  // ----- a reader that can go on does -----

  predicate NeedsLock(pc: RPc) { pc.RLock? || pc.RWoken? || pc.RDoneLock? || pc.REndLock? }

  ghost predicate LockFree(tr: Trace, n: nat) {
    exists m: nat :: n <= m && tr.st(m).rMutex == Nobody
  }

  // Reader `j` is at `pc`, where it needs nothing but perhaps a lock that keeps getting free.
  ghost predicate Ready(tr: Trace, j: nat, pc: RPc, k: nat) {
    At(tr.st(k), j, pc) && !pc.RWait? && !pc.RExited? && (NeedsLock(pc) ==> forall m: nat :: LockFree(tr, m))
  }

  lemma ReaderMoves(tr: Trace, n: nat, j: nat, pc: RPc, k: nat)
    requires Tail(tr, n) && n <= k && Ready(tr, j, pc, k)
    ensures MovesAfter(tr, Reader(j), k)
  {
    hide Runs, QuietFrom, FairTo, Moves;
    if !MovesAfter(tr, Reader(j), k) {
      forall m: nat | k <= m ensures CanAfter(tr, Reader(j), m) {
        var i := m;
        if NeedsLock(pc) {
          assert LockFree(tr, m);
          i :| m <= i && tr.st(i).rMutex == Nobody;
        }
        StaysPut(tr, n, j, pc, k, i);
        assert CanMove(tr.st(i), Reader(j));
      }
      MovesInTime(tr, Reader(j), k);
    }
  }

  lemma FirstMove(tr: Trace, t: Tid, k: nat, m: nat) returns (i: nat)
    requires k <= m && Moves(tr.move(m), t)
    ensures k <= i && Moves(tr.move(i), t) && forall l: nat :: k <= l < i ==> !Moves(tr.move(l), t)
    decreases m - k
  {
    hide Moves;
    if Moves(tr.move(k), t) {
      i := k;
    } else {
      i := FirstMove(tr, t, k + 1, m);
    }
  }

  // What is left for a reader to do: it takes the lock, or finds nothing to read and waits.
  ghost predicate Cycles(s: State, t: State, j: nat, pc: RPc) {
    || (pc == RWoken && At(t, j, RCheck))
    || (pc == RCheck && s.rCount == 0 && !Accounted(s) && t.rMutex == Nobody)
  }

  lemma QuietReader(s: State, m: Move, t: State, j: nat, pc: RPc)
    requires Goes(s, m, t) && Quiet(s, m) && Moves(m, Reader(j)) && At(s, j, pc)
    ensures Cycles(s, t, j, pc)
  {}

  lemma ReaderGoesOn(tr: Trace, n: nat, j: nat, pc: RPc, k: nat) returns (i: nat)
    requires Tail(tr, n) && n <= k && Ready(tr, j, pc, k)
    ensures k <= i && Cycles(tr.st(i), tr.st(i + 1), j, pc)
  {
    hide Tail, Moves, Goes, Quiet, At, Cycles;
    ReaderMoves(tr, n, j, pc, k);
    var m: nat :| k <= m && Moves(tr.move(m), Reader(j));
    i := FirstMove(tr, Reader(j), k, m);
    StaysPut(tr, n, j, pc, k, i);
    QuietAt(tr, n, i);
    QuietReader(tr.st(i), tr.move(i), tr.st(i + 1), j, pc);
  }

  // ----- writers are through -----

  lemma NoWriterMoves(tr: Trace, n: nat, i: nat)
    requires QuietFrom(tr, n)
    ensures !MovesAfter(tr, Writer(i), n)
  {
    forall m: nat | n <= m ensures !Moves(tr.move(m), Writer(i)) {
      assert QuietIn(tr, m);
    }
  }

  lemma WriterOut(tr: Trace, n: nat, i: nat)
    requires Tail(tr, n) && i < |tr.st(n).ws|
    requires tr.st(n).ws[i] == WLock ==> tr.st(n).wMutex == Nobody
    requires tr.st(n).ws[i].WDoneLock? || tr.st(n).ws[i] == WEndLock ==> forall m: nat :: LockFree(tr, m)
    ensures tr.st(n).ws[i] == WExited
  {
    hide Runs, QuietFrom, FairTo;
    NoWriterMoves(tr, n, i);
    if tr.st(n).ws[i] != WExited {
      forall m: nat | n <= m ensures CanAfter(tr, Writer(i), m) {
        var k := m;
        if tr.st(n).ws[i].WDoneLock? || tr.st(n).ws[i] == WEndLock {
          assert LockFree(tr, m);
          k :| m <= k && tr.st(k).rMutex == Nobody;
        }
        StaysAlike(tr, n, k);
        assert CanMove(tr.st(k), Writer(i));
      }
      MovesInTime(tr, Writer(i), n);
    }
  }

  ghost predicate AlwaysInv(tr: Trace, all: seq<Obj>) {
    forall n: nat :: Inv(tr.st(n), all)
  }

  // The read list's lock is free again and again.
  lemma LockGetsFree(tr: Trace, all: seq<Obj>, n: nat, k: nat)
    requires Tail(tr, n) && AlwaysInv(tr, all)
    ensures LockFree(tr, k)
  {
    hide Tail, Conserved, LeftLate, NoneForgotten, Tallied;
    var m := if k < n then n else k;
    assert Inv(tr.st(m), all);
    match tr.st(m).rMutex
    case Nobody =>
    case Writer(i) =>
      StaysAlike(tr, n, m);
      WriterOut(tr, n, i);
    case Reader(j) =>
      var i := ReaderGoesOn(tr, n, j, tr.st(m).rs[j], m);
      assert tr.st(i + 1).rMutex == Nobody;
  }

  lemma AllWritersOut(tr: Trace, all: seq<Obj>, n: nat)
    requires Tail(tr, n) && AlwaysInv(tr, all)
    ensures forall m: nat :: LockFree(tr, m)
    ensures forall i :: 0 <= i < |tr.st(n).ws| ==> tr.st(n).ws[i] == WExited
  {
    hide Tail, LockFree, Conserved, LeftLate, NoneForgotten, Tallied, ReadLocked;
    forall m: nat ensures LockFree(tr, m) {
      LockGetsFree(tr, all, n, m);
    }
    assert Inv(tr.st(n), all);
    if tr.st(n).wMutex.Writer? {
      WriterOut(tr, n, tr.st(n).wMutex.w);
    }
    forall i | 0 <= i < |tr.st(n).ws| ensures tr.st(n).ws[i] == WExited {
      WriterOut(tr, n, i);
    }
  }

  // ----- and so are readers -----

  lemma ReadersCycle(tr: Trace, all: seq<Obj>, n: nat, j: nat)
    requires Tail(tr, n) && AlwaysInv(tr, all) && j < |tr.st(n).rs|
    ensures Cycling(tr.st(n).rs[j]) || tr.st(n).rs[j] == RExited
  {
    hide Tail, LockFree, AlwaysInv;
    AllWritersOut(tr, all, n);
    var pc := tr.st(n).rs[j];
    if !pc.RWait? && !pc.RExited? {
      var i := ReaderGoesOn(tr, n, j, pc, n);
    }
  }

  // A reader that is awake comes to find nothing to read and something not accounted for.
  lemma AwakeFindsNothing(tr: Trace, all: seq<Obj>, n: nat, j: nat)
    requires Tail(tr, n) && AlwaysInv(tr, all) && j < |tr.st(n).rs|
    requires tr.st(n).rs[j] == RWoken || tr.st(n).rs[j] == RCheck
    ensures tr.st(n).rCount == 0 && !Accounted(tr.st(n))
  {
    hide Tail, LockFree, AlwaysInv, Accounted;
    AllWritersOut(tr, all, n);
    var k := n;
    if tr.st(n).rs[j] == RWoken {
      var i := ReaderGoesOn(tr, n, j, RWoken, n);
      k := i + 1;
    }
    var i := ReaderGoesOn(tr, n, j, RCheck, k);
    StaysAlike(tr, n, i);
  }

  // So none is left: with nobody at work and something left to read or all accounted for, somebody
  // would be awake.
  lemma QuietIsOver(tr: Trace, all: seq<Obj>, n: nat)
    requires Tail(tr, n) && AlwaysInv(tr, all) && (tr.st(n).ws != [] || tr.st(n).rs == [] || all == [])
    ensures Exited(tr.st(n))
  {
    hide Tail, AlwaysInv, Conserved, Locked, SomeWaits, SomeBound;
    AllWritersOut(tr, all, n);
    var s := tr.st(n);
    if s.rs != [] {
      NothingInHand(tr, all, n);
    }
    forall j | 0 <= j < |s.rs| ensures s.rs[j] == RExited {
      ReadersCycle(tr, all, n, j);
      if s.rs[j] == RWait {
        Waits(s.rs, j);
        var b := SomeAwake(tr, all, n);
        AwakeFindsNothing(tr, all, n, b);
      } else if s.rs[j] != RExited {
        AwakeFindsNothing(tr, all, n, j);
      }
    }
  }

  lemma Waits(rs: seq<RPc>, j: nat)
    requires j < |rs| && rs[j] == RWait
    ensures SomeWaits(rs)
  {}

  lemma SomeAwake(tr: Trace, all: seq<Obj>, n: nat) returns (b: nat)
    requires Tail(tr, n) && AlwaysInv(tr, all) && SomeBound(tr.st(n).rs)
    ensures b < |tr.st(n).rs| && (tr.st(n).rs[b] == RWoken || tr.st(n).rs[b] == RCheck)
  {
    hide Tail, AlwaysInv;
    b :| 0 <= b < |tr.st(n).rs| && Bound(tr.st(n).rs[b]);
    ReadersCycle(tr, all, n, b);
  }

  // Whatever is not on the read list is accounted for.
  lemma NothingInHand(tr: Trace, all: seq<Obj>, n: nat)
    requires Tail(tr, n) && AlwaysInv(tr, all) && (tr.st(n).ws != [] || all == [])
    ensures tr.st(n).rCount == 0 <==> Accounted(tr.st(n))
    ensures Inv(tr.st(n), all)
  {
    hide Tail, Conserved, Locked, NoneForgotten;
    var s := tr.st(n);
    AllWritersOut(tr, all, n);
    forall j | 0 <= j < |s.rs| ensures RWeight(s.rs[j], Any) == 0 {
      ReadersCycle(tr, all, n, j);
    }
    IdleHoldNothing(s.ws, s.rs);
    assert Inv(s, all);
    Total(s, all);
    assert s.ws != [] ==> WLeft(s.ws[0]);
  }

  // ----- the end -----

  lemma {:induction false} TraceInv(tr: Trace, all: seq<Obj>, n: nat)
    requires Runs(tr) && Inv(tr.st(0), all)
    ensures Inv(tr.st(n), all) && |tr.st(n).ws| == |tr.st(0).ws| && |tr.st(n).rs| == |tr.st(0).rs|
  {
    hide Inv, Next, Enabled;
    if n > 0 {
      TraceInv(tr, all, n - 1);
      assert Goes(tr.st(n - 1), tr.move(n - 1), tr.st(n));
      if tr.move(n - 1).Do? {
        KeepsInv(tr.st(n - 1), tr.move(n - 1).a, all);
        SameReaders(tr.st(n - 1), tr.move(n - 1).a);
      }
    }
  }

  lemma {:induction false} NothingGetsWritten(tr: Trace, n: nat)
    requires Runs(tr) && tr.st(0).ws == []
    ensures tr.st(n).ws == [] && tr.st(n).wList == tr.st(0).wList
  {
    if n > 0 {
      NothingGetsWritten(tr, n - 1);
      assert Goes(tr.st(n - 1), tr.move(n - 1), tr.st(n));
    }
  }

  // With nobody to write them, objects are never accounted for, and readers never leave.
  lemma ReadersStay(tr: Trace, all: seq<Obj>, n: nat)
    requires Runs(tr) && Inv(tr.st(n), all) && tr.st(0).ws == [] && tr.st(0).wList == all != [] && tr.st(n).rs != []
    ensures !Exited(tr.st(n))
  {
    hide Runs, Conserved, Locked, NoneForgotten;
    NothingGetsWritten(tr, n);
    Total(tr.st(n), all);
    NobodyLeft(tr.st(n));
  }

  lemma NobodyLeft(s: State)
    requires LeftLate(s) && !Accounted(s) && s.rs != []
    ensures !Exited(s)
  {
    assert !RLeft(s.rs[0]);
  }

  // In every fair run all threads exit, unless there are objects and readers but no writer; then
  // they do so in none.
  lemma FairRunsExit(tr: Trace, all: seq<Obj>, writers: nat, readers: nat)
    requires Runs(tr) && Fair(tr) && tr.st(0) == Init(all, writers, readers)
    ensures (exists n: nat :: Exited(tr.st(n))) <==> writers > 0 || readers == 0 || all == []
  {
    hide Runs, Fair, Inv, QuietFrom, Exited;
    InitInv(all, writers, readers);
    forall n: nat ensures Inv(tr.st(n), all) && |tr.st(n).rs| == readers {
      TraceInv(tr, all, n);
    }
    if writers > 0 || readers == 0 || all == [] {
      var n := Settles(tr, 0);
      TraceInv(tr, all, n);
      QuietIsOver(tr, all, n);
    } else {
      forall n: nat ensures !Exited(tr.st(n)) {
        TraceInv(tr, all, n);
        ReadersStay(tr, all, n);
      }
    }
  }
}
