// Writer and reader threads around two todo lists (examples/mio_rw_threads.c), as a transition
// system: each mutex is taken in one step and the critical section, down to the unlock, is the
// next one. Any number of threads of either kind, any interleaving, any outcome of every I/O,
// and spurious wakeups.
module Pipeline {

  type Obj = nat

  // Where a writer is.
  datatype WPc =
    | WLock                        // about to lock the write list
    | WPop                         // holds the write list
    | Writing(o: Obj)
    | WDoneLock(o: Obj, ok: bool)  // about to lock the read list
    | WPush(o: Obj, ok: bool)      // holds the read list
    | WEndLock                     // left the loop, about to lock the read list
    | WEndBroadcast                // holds the read list
    | WExited

  // Where a reader is.
  datatype RPc =
    | RLock                                     // about to lock the read list
    | RCheck                                    // holds it, at the test of the inner loop
    | RWait                                     // waits on the condition, not signalled
    | RWoken                                    // signalled, about to lock the read list again
    | Reading(o: Obj)
    | RDoneLock(o: Obj, ok: bool, same: bool)   // about to lock the read list
    | RRecord(o: Obj, ok: bool, same: bool)     // holds it
    | REndLock                                  // left the loop, about to lock the read list
    | REndBroadcast                             // holds it
    | RExited

  datatype Tid = Nobody | Writer(w: nat) | Reader(r: nat)

  datatype State = State(
    wList: seq<Obj>, wCount: nat, wMutex: Tid,
    rList: seq<Obj>, rCount: nat, rMutex: Tid,
    todo: nat, done: nat, failed: nat, matched: nat,
    doneObjs: seq<Obj>, failedObjs: seq<Obj>,
    ws: seq<WPc>, rs: seq<RPc>)

  // A step: of a writer or a reader, with the outcome of its I/O, or a spurious wakeup.
  datatype Act = WStep(i: nat, ok: bool) | RStep(i: nat, ok: bool, same: bool) | Spurious(i: nat)

  // ----- steps -----

  predicate WEnabled(s: State, i: nat) {
    i < |s.ws| &&
    match s.ws[i]
    case WLock => s.wMutex == Nobody
    case WDoneLock(_, _) => s.rMutex == Nobody
    case WEndLock => s.rMutex == Nobody
    case WExited => false
    case _ => true
  }

  predicate REnabled(s: State, i: nat) {
    i < |s.rs| &&
    match s.rs[i]
    case RLock => s.rMutex == Nobody
    case RWoken => s.rMutex == Nobody
    case RDoneLock(_, _, _) => s.rMutex == Nobody
    case REndLock => s.rMutex == Nobody
    case RWait => false
    case RExited => false
    case _ => true
  }

  predicate Enabled(s: State, a: Act) {
    match a
    case WStep(i, _) => WEnabled(s, i)
    case RStep(i, _, _) => REnabled(s, i)
    case Spurious(i) => i < |s.rs| && s.rs[i] == RWait
  }

  // pthread_cond_broadcast.
  function Broadcast(rs: seq<RPc>): (r: seq<RPc>)
    ensures |r| == |rs|
    ensures forall i :: 0 <= i < |rs| ==> r[i] == if rs[i] == RWait then RWoken else rs[i]
  {
    seq(|rs|, i requires 0 <= i < |rs| => if rs[i] == RWait then RWoken else rs[i])
  }

  predicate Counted(s: State) {
    s.wCount == |s.wList| && s.rCount == |s.rList|
  }

  predicate Accounted(s: State) {
    s.done + s.failed == s.todo
  }

  // rwt_writer.
  function WNext(s: State, i: nat, ok: bool): State
    requires WEnabled(s, i) && Counted(s)
  {
    match s.ws[i]
    case WLock => s.(wMutex := Writer(i), ws := s.ws[i := WPop])
    case WPop =>
      if s.wCount == 0 then s.(wMutex := Nobody, ws := s.ws[i := WEndLock])
      else s.(wList := s.wList[1..], wCount := s.wCount - 1, wMutex := Nobody, ws := s.ws[i := Writing(s.wList[0])])
    case Writing(o) => s.(ws := s.ws[i := WDoneLock(o, ok)])
    case WDoneLock(o, good) => s.(rMutex := Writer(i), ws := s.ws[i := WPush(o, good)])
    case WPush(o, good) =>
      var t := s.(rMutex := Nobody, rs := Broadcast(s.rs), ws := s.ws[i := WLock]);
      if good then t.(rList := [o] + s.rList, rCount := s.rCount + 1)
      else t.(failed := s.failed + 1, failedObjs := [o] + s.failedObjs)
    case WEndLock => s.(rMutex := Writer(i), ws := s.ws[i := WEndBroadcast])
    case WEndBroadcast => s.(rMutex := Nobody, rs := Broadcast(s.rs), ws := s.ws[i := WExited])
  }

  // rwt_reader.
  function RNext(s: State, i: nat, ok: bool, same: bool): State
    requires REnabled(s, i) && Counted(s)
  {
    match s.rs[i]
    case RLock => s.(rMutex := Reader(i), rs := s.rs[i := RCheck])
    case RWoken => s.(rMutex := Reader(i), rs := s.rs[i := RCheck])
    case RCheck =>
      if s.rCount != 0 then
        s.(rList := s.rList[1..], rCount := s.rCount - 1, rMutex := Nobody, rs := s.rs[i := Reading(s.rList[0])])
      else s.(rMutex := Nobody, rs := s.rs[i := if Accounted(s) then REndLock else RWait])
    case Reading(o) => s.(rs := s.rs[i := RDoneLock(o, ok, same)])
    case RDoneLock(o, good, eq) => s.(rMutex := Reader(i), rs := s.rs[i := RRecord(o, good, eq)])
    case RRecord(o, good, eq) =>
      if !good then
        s.(failed := s.failed + 1, failedObjs := [o] + s.failedObjs, rMutex := Nobody, rs := s.rs[i := RLock])
      else
        s.(done := s.done + 1, doneObjs := [o] + s.doneObjs, matched := if eq then s.matched + 1 else s.matched,
           rMutex := Nobody, rs := s.rs[i := if s.done + 1 + s.failed == s.todo then REndLock else RLock])
    case REndLock => s.(rMutex := Reader(i), rs := s.rs[i := REndBroadcast])
    case REndBroadcast => s.(rMutex := Nobody, rs := Broadcast(s.rs)[i := RExited])
  }

  function Next(s: State, a: Act): State
    requires Enabled(s, a) && Counted(s)
  {
    match a
    case WStep(i, ok) => WNext(s, i, ok)
    case RStep(i, ok, same) => RNext(s, i, ok, same)
    case Spurious(i) => s.(rs := s.rs[i := RWoken])
  }

  // ----- sums over the threads -----

  // What is summed up: objects a thread holds, all or just one; the effort left to it, when a
  // broadcast costs `k` and a reader's way from waking up to waiting again counts or does not; or
  // outcomes of its I/O not recorded yet.
  datatype Kind =
    | Any
    | Only(o: Obj)
    | Effort(k: nat, waits: bool)
    | Written(o: Obj, ok: bool)   // written, with this outcome
    | Taken(o: Obj)               // being read
    | HasRead(o: Obj, ok: bool)   // read, with this outcome
    | ReadWell(same: bool)        // read successfully, any object, and perhaps with the same digest

  // Kinds that count objects.
  predicate Objects(kind: Kind) { kind.Any? || kind.Only? }

  function IsKind(o: Obj, kind: Kind): nat {
    if kind == Any || kind == Only(o) then 1 else 0
  }

  function ReadWork(): nat { 5 }

  function WWeight(pc: WPc, kind: Kind): nat {
    match kind
    case Effort(k, _) => (
      match pc
      case WLock => k + 3
      case WPop => k + 2
      case WEndLock => k + 1
      case WEndBroadcast => k
      case WExited => 0
      case WPush(_, _) => k + 3 + ReadWork() + k
      case WDoneLock(_, _) => k + 4 + ReadWork() + k
      case Writing(_) => k + 5 + ReadWork() + k)
    case Written(o, ok) => if pc == WDoneLock(o, ok) || pc == WPush(o, ok) then 1 else 0
    case Taken(_) => 0
    case HasRead(_, _) => 0
    case ReadWell(_) => 0
    case _ => (
      match pc
      case Writing(o) => IsKind(o, kind)
      case WDoneLock(o, _) => IsKind(o, kind)
      case WPush(o, _) => IsKind(o, kind)
      case _ => 0)
  }

  function RWeight(pc: RPc, kind: Kind): nat {
    match kind
    case Effort(k, waits) => (
      match pc
      case RLock => k + 3
      case RWoken => if waits then k + 3 else k + 2
      case RCheck => k + 2
      case RWait => if waits then k + 1 else k + 2
      case REndLock => k + 1
      case REndBroadcast => k
      case RExited => 0
      case RRecord(_, _, _) => k + 4
      case RDoneLock(_, _, _) => k + 5
      case Reading(_) => k + 6)
    case Written(_, _) => 0
    case Taken(o) => if pc == Reading(o) then 1 else 0
    case HasRead(o, ok) => (
      match pc
      case RDoneLock(p, good, _) => if p == o && good == ok then 1 else 0
      case RRecord(p, good, _) => if p == o && good == ok then 1 else 0
      case _ => 0)
    case ReadWell(same) => (
      match pc
      case RDoneLock(_, good, eq) => if good && (same ==> eq) then 1 else 0
      case RRecord(_, good, eq) => if good && (same ==> eq) then 1 else 0
      case _ => 0)
    case _ => (
      match pc
      case Reading(o) => IsKind(o, kind)
      case RDoneLock(o, _, _) => IsKind(o, kind)
      case RRecord(o, _, _) => IsKind(o, kind)
      case _ => 0)
  }

  function WSum(ws: seq<WPc>, kind: Kind): nat {
    if ws == [] then 0 else WWeight(ws[0], kind) + WSum(ws[1..], kind)
  }

  function RSum(rs: seq<RPc>, kind: Kind): nat {
    if rs == [] then 0 else RWeight(rs[0], kind) + RSum(rs[1..], kind)
  }

  lemma {:induction false} WSumUpdate(ws: seq<WPc>, i: nat, pc: WPc, kind: Kind)
    requires i < |ws|
    ensures WSum(ws[i := pc], kind) + WWeight(ws[i], kind) == WSum(ws, kind) + WWeight(pc, kind)
  {
    hide WWeight;
    if i > 0 {
      WSumUpdate(ws[1..], i - 1, pc, kind);
      assert ws[i := pc][1..] == ws[1..][i - 1 := pc];
    } else {
      assert ws[0 := pc][1..] == ws[1..];
    }
  }

  lemma {:induction false} RSumUpdate(rs: seq<RPc>, i: nat, pc: RPc, kind: Kind)
    requires i < |rs|
    ensures RSum(rs[i := pc], kind) + RWeight(rs[i], kind) == RSum(rs, kind) + RWeight(pc, kind)
  {
    hide RWeight;
    if i > 0 {
      RSumUpdate(rs[1..], i - 1, pc, kind);
      assert rs[i := pc][1..] == rs[1..][i - 1 := pc];
    } else {
      assert rs[0 := pc][1..] == rs[1..];
    }
  }

  // What a broadcast to `n` readers may cost.
  function Cost(kind: Kind, n: nat): nat {
    if kind.Effort? && kind.waits then 2 * n else 0
  }

  // A broadcast moves no object, and costs at most two steps for every reader.
  lemma {:induction false} BroadcastSum(rs: seq<RPc>, kind: Kind)
    ensures RSum(rs, kind) <= RSum(Broadcast(rs), kind) <= RSum(rs, kind) + Cost(kind, |rs|)
  {
    if rs != [] {
      BroadcastSum(rs[1..], kind);
      assert Broadcast(rs)[1..] == Broadcast(rs[1..]);
      BroadcastWeight(rs[0], kind);
    }
  }

  lemma BroadcastWeight(pc: RPc, kind: Kind)
    ensures var pc' := if pc == RWait then RWoken else pc;
            RWeight(pc, kind) <= RWeight(pc', kind) <= RWeight(pc, kind) + Cost(kind, 1)
  {}

  // ----- where the objects are -----

  function InList(l: seq<Obj>, kind: Kind): nat {
    if l == [] then 0 else IsKind(l[0], kind) + InList(l[1..], kind)
  }

  lemma InListCons(o: Obj, l: seq<Obj>, kind: Kind)
    ensures InList([o] + l, kind) == IsKind(o, kind) + InList(l, kind)
  {}

  lemma {:induction false} InListAny(l: seq<Obj>)
    ensures InList(l, Any) == |l|
  {
    if l != [] {
      InListAny(l[1..]);
    }
  }

  // In all places together: on either list, in the hands of a thread, done, or failed.
  function Places(s: State, kind: Kind): nat {
    InList(s.wList, kind) + WSum(s.ws, kind) + InList(s.rList, kind) + RSum(s.rs, kind)
    + InList(s.doneObjs, kind) + InList(s.failedObjs, kind)
  }

  // No step loses or duplicates an object.
  lemma WritersConserve(s: State, i: nat, ok: bool, kind: Kind)
    requires WEnabled(s, i) && Counted(s) && Objects(kind)
    ensures Places(WNext(s, i, ok), kind) == Places(s, kind)
  {
    hide WSum, RSum, Broadcast;
    var t := WNext(s, i, ok);
    WSumUpdate(s.ws, i, t.ws[i], kind);
    BroadcastSum(s.rs, kind);
    match s.ws[i]
    case WPush(o, _) =>
      InListCons(o, s.rList, kind);
      InListCons(o, s.failedObjs, kind);
    case _ =>
  }

  lemma ReadersConserve(s: State, i: nat, ok: bool, same: bool, kind: Kind)
    requires REnabled(s, i) && Counted(s) && Objects(kind)
    ensures Places(RNext(s, i, ok, same), kind) == Places(s, kind)
  {
    hide WSum, RSum;
    var t := RNext(s, i, ok, same);
    RSumUpdate(s.rs, i, t.rs[i], kind);
    match s.rs[i]
    case RRecord(o, _, _) =>
      InListCons(o, s.doneObjs, kind);
      InListCons(o, s.failedObjs, kind);
    case REndBroadcast =>
      BroadcastSum(s.rs, kind);
      RSumUpdate(Broadcast(s.rs), i, RExited, kind);
    case _ =>
  }

  // ----- what every step keeps -----

  ghost predicate Tallied(s: State, all: seq<Obj>) {
    Counted(s) && |s.doneObjs| == s.done && |s.failedObjs| == s.failed && s.matched <= s.done && s.todo == |all|
  }

  ghost predicate Conserved(s: State, all: seq<Obj>) {
    forall kind: Kind :: Objects(kind) ==> Places(s, kind) == InList(all, kind)
  }

  predicate WHoldsRead(pc: WPc) { pc.WPush? || pc.WEndBroadcast? }

  predicate RHoldsRead(pc: RPc) { pc.RCheck? || pc.RRecord? || pc.REndBroadcast? }

  // A mutex is held by exactly the thread inside its critical section.
  ghost predicate WriteLocked(ws: seq<WPc>, m: Tid) {
    && (forall i :: 0 <= i < |ws| ==> (ws[i].WPop? <==> m == Writer(i)))
    && (m.Writer? ==> m.w < |ws|) && !m.Reader?
  }

  ghost predicate ReadLocked(ws: seq<WPc>, rs: seq<RPc>, m: Tid) {
    && (forall i :: 0 <= i < |ws| ==> (WHoldsRead(ws[i]) <==> m == Writer(i)))
    && (forall i :: 0 <= i < |rs| ==> (RHoldsRead(rs[i]) <==> m == Reader(i)))
    && (m.Writer? ==> m.w < |ws|) && (m.Reader? ==> m.r < |rs|)
  }

  ghost predicate Locked(s: State) {
    WriteLocked(s.ws, s.wMutex) && ReadLocked(s.ws, s.rs, s.rMutex)
  }

  predicate WLeft(pc: WPc) { pc.WEndLock? || pc.WEndBroadcast? || pc.WExited? }

  predicate RLeft(pc: RPc) { pc.REndLock? || pc.REndBroadcast? || pc.RExited? }

  // A writer leaves its loop only when there is nothing left to write, a reader only when all is
  // done or failed.
  ghost predicate LeftLate(s: State) {
    && (forall i :: 0 <= i < |s.ws| && WLeft(s.ws[i]) ==> s.wList == [])
    && (forall i :: 0 <= i < |s.rs| && RLeft(s.rs[i]) ==> Accounted(s))
  }

  ghost predicate SomeWaits(rs: seq<RPc>) {
    exists i :: 0 <= i < |rs| && rs[i] == RWait
  }

  // Readers that will broadcast before they wait again, once all is accounted for.
  predicate Bound(pc: RPc) {
    pc.RLock? || pc.RCheck? || pc.RWoken? || pc.REndLock? || pc.REndBroadcast?
  }

  ghost predicate SomeBound(rs: seq<RPc>) {
    exists i :: 0 <= i < |rs| && Bound(rs[i])
  }

  // No lost wakeup: while a reader waits without having been signalled there is nothing to read,
  // and when everything is accounted for another reader is on its way to broadcast.
  ghost predicate NoneForgotten(s: State) {
    SomeWaits(s.rs) ==> s.rList == [] && (Accounted(s) ==> SomeBound(s.rs))
  }

  ghost predicate Inv(s: State, all: seq<Obj>) {
    Tallied(s, all) && Conserved(s, all) && Locked(s) && LeftLate(s) && NoneForgotten(s)
  }

  // ----- the invariant, part by part -----

  lemma KeepsTallied(s: State, a: Act, all: seq<Obj>)
    requires Tallied(s, all) && Enabled(s, a)
    ensures Tallied(Next(s, a), all)
  {}

  lemma KeepsConserved(s: State, a: Act, all: seq<Obj>)
    requires Counted(s) && Conserved(s, all) && Enabled(s, a)
    ensures Conserved(Next(s, a), all)
  {
    hide WNext, RNext, InList, WSum;
    forall kind: Kind | Objects(kind) ensures Places(Next(s, a), kind) == InList(all, kind) {
      match a
      case WStep(i, ok) => WritersConserve(s, i, ok, kind);
      case RStep(i, ok, same) => ReadersConserve(s, i, ok, same, kind);
      case Spurious(i) => RSumUpdate(s.rs, i, RWoken, kind);
    }
  }

  // A mutex kept, taken, or given back by the thread that steps.
  predicate Handed(m: Tid, m': Tid, t: Tid) {
    (m == m' || m == Nobody || m == t) && (m' == m || m' == Nobody || m' == t)
  }

  lemma WriteLockedUpdate(ws: seq<WPc>, i: nat, pc: WPc, m: Tid, m': Tid)
    requires WriteLocked(ws, m) && i < |ws| && Handed(m, m', Writer(i)) && (pc.WPop? <==> m' == Writer(i))
    ensures WriteLocked(ws[i := pc], m')
  {}

  lemma ReadLockedByWriter(ws: seq<WPc>, rs: seq<RPc>, rs': seq<RPc>, i: nat, pc: WPc, m: Tid, m': Tid)
    requires ReadLocked(ws, rs, m) && i < |ws| && Handed(m, m', Writer(i)) && (WHoldsRead(pc) <==> m' == Writer(i))
    requires |rs'| == |rs| && forall j :: 0 <= j < |rs| ==> RHoldsRead(rs'[j]) == RHoldsRead(rs[j])
    ensures ReadLocked(ws[i := pc], rs', m')
  {}

  lemma ReadLockedByReader(ws: seq<WPc>, rs: seq<RPc>, rs': seq<RPc>, i: nat, m: Tid, m': Tid)
    requires ReadLocked(ws, rs, m) && i < |rs| == |rs'| && Handed(m, m', Reader(i)) && (RHoldsRead(rs'[i]) <==> m' == Reader(i))
    requires forall j :: 0 <= j < |rs| && j != i ==> RHoldsRead(rs'[j]) == RHoldsRead(rs[j])
    ensures ReadLocked(ws, rs', m')
  {}

  lemma KeepsLocked(s: State, a: Act)
    requires Counted(s) && Locked(s) && Enabled(s, a)
    ensures Locked(Next(s, a))
  {
    hide WriteLocked, ReadLocked;
    match a
    case WStep(i, ok) => WriterKeepsLocked(s, i, ok);
    case RStep(i, ok, same) => ReaderKeepsLocked(s, i, ok, same);
    case Spurious(i) =>
      ReadLockedByReader(s.ws, s.rs, Next(s, a).rs, i, s.rMutex, s.rMutex) by { NotHolding(s, i); }
  }

  lemma NotHolding(s: State, i: nat)
    requires Locked(s) && i < |s.rs| && s.rs[i] == RWait
    ensures s.rMutex != Reader(i)
  {}

  lemma WriterKeepsLocked(s: State, i: nat, ok: bool)
    requires Counted(s) && Locked(s) && WEnabled(s, i)
    ensures Locked(WNext(s, i, ok))
  {
    var t := WNext(s, i, ok);
    assert s.ws[i].WPop? <==> s.wMutex == Writer(i);
    assert WHoldsRead(s.ws[i]) <==> s.rMutex == Writer(i);
    assert t.ws == s.ws[i := t.ws[i]] && (t.rs == s.rs || t.rs == Broadcast(s.rs));
    WriteLockedUpdate(s.ws, i, t.ws[i], s.wMutex, t.wMutex);
    ReadLockedByWriter(s.ws, s.rs, t.rs, i, t.ws[i], s.rMutex, t.rMutex);
  }

  lemma ReaderKeepsLocked(s: State, i: nat, ok: bool, same: bool)
    requires Counted(s) && Locked(s) && REnabled(s, i)
    ensures Locked(RNext(s, i, ok, same))
  {
    var t := RNext(s, i, ok, same);
    assert RHoldsRead(s.rs[i]) <==> s.rMutex == Reader(i);
    assert t.rs == s.rs[i := t.rs[i]] || t.rs == Broadcast(s.rs)[i := t.rs[i]];
    ReadLockedByReader(s.ws, s.rs, t.rs, i, s.rMutex, t.rMutex);
  }

  // While a thread has an object in hand not everything is accounted for.
  lemma WriterHolds(s: State, all: seq<Obj>, i: nat)
    requires Tallied(s, all) && Conserved(s, all) && i < |s.ws| && WWeight(s.ws[i], Any) == 1
    ensures s.done + s.failed < s.todo
  {
    hide WWeight, WSum, RSum, InList;
    HeldByWriter(s.ws, i);
    Total(s, all);
  }

  lemma ReaderHolds(s: State, all: seq<Obj>, i: nat)
    requires Tallied(s, all) && Conserved(s, all) && i < |s.rs| && RWeight(s.rs[i], Any) == 1
    ensures s.done + s.failed < s.todo
  {
    hide RWeight, WSum, RSum, InList;
    HeldByReader(s.rs, i);
    Total(s, all);
  }

  lemma {:induction false} HeldByWriter(ws: seq<WPc>, i: nat)
    requires i < |ws|
    ensures WWeight(ws[i], Any) <= WSum(ws, Any)
  {
    if i > 0 {
      HeldByWriter(ws[1..], i - 1);
    }
  }

  lemma {:induction false} HeldByReader(rs: seq<RPc>, i: nat)
    requires i < |rs|
    ensures RWeight(rs[i], Any) <= RSum(rs, Any)
  {
    if i > 0 {
      HeldByReader(rs[1..], i - 1);
    }
  }

  // The objects add up.
  lemma Total(s: State, all: seq<Obj>)
    requires Tallied(s, all) && Conserved(s, all)
    ensures |s.wList| + WSum(s.ws, Any) + |s.rList| + RSum(s.rs, Any) + s.done + s.failed == s.todo
  {
    assert Places(s, Any) == InList(all, Any);
    InListAny(s.wList);
    InListAny(s.rList);
    InListAny(s.doneObjs);
    InListAny(s.failedObjs);
    InListAny(all);
  }

  lemma KeepsLeftLate(s: State, a: Act, all: seq<Obj>)
    requires Tallied(s, all) && Conserved(s, all) && LeftLate(s) && Enabled(s, a)
    ensures LeftLate(Next(s, a))
  {
    match a
    case WStep(i, ok) => WriterLeavesLate(s, i, ok, all);
    case RStep(i, ok, same) => ReaderLeavesLate(s, i, ok, same, all);
    case Spurious(_) =>
  }

  lemma WriterLeavesLate(s: State, i: nat, ok: bool, all: seq<Obj>)
    requires Tallied(s, all) && Conserved(s, all) && LeftLate(s) && WEnabled(s, i)
    ensures LeftLate(WNext(s, i, ok))
  {
    hide Conserved;
    if s.ws[i].WPush? {
      WriterHolds(s, all, i);
    }
  }

  lemma ReaderLeavesLate(s: State, i: nat, ok: bool, same: bool, all: seq<Obj>)
    requires Tallied(s, all) && Conserved(s, all) && LeftLate(s) && REnabled(s, i)
    ensures LeftLate(RNext(s, i, ok, same))
  {
    hide Conserved;
    if s.rs[i].RRecord? {
      ReaderHolds(s, all, i);
    }
  }

  lemma BoundStays(rs: seq<RPc>, i: nat, pc: RPc)
    requires i < |rs| && SomeBound(rs) && (Bound(rs[i]) ==> Bound(pc))
    ensures SomeBound(rs[i := pc])
  {
    var j :| 0 <= j < |rs| && Bound(rs[j]);
    assert Bound(rs[i := pc][j]);
  }

  lemma BoundNow(rs: seq<RPc>, i: nat)
    requires i < |rs| && Bound(rs[i])
    ensures SomeBound(rs)
  {}

  lemma WaitedBefore(rs: seq<RPc>, i: nat, pc: RPc)
    requires i < |rs| && pc != RWait && SomeWaits(rs[i := pc])
    ensures SomeWaits(rs)
  {}

  lemma NoneWaits(rs: seq<RPc>, i: nat)
    requires i < |rs|
    ensures !SomeWaits(Broadcast(rs)) && !SomeWaits(Broadcast(rs)[i := RExited])
  {}

  lemma KeepsNoneForgotten(s: State, a: Act, all: seq<Obj>)
    requires Tallied(s, all) && NoneForgotten(s) && Enabled(s, a)
    ensures NoneForgotten(Next(s, a))
  {
    hide SomeWaits, SomeBound, Broadcast;
    var t := Next(s, a);
    match a {
      case WStep(i, _) =>
        if SomeWaits(Broadcast(s.rs)) {
          assert |s.rs| > 0 by { SomeoneThere(Broadcast(s.rs)); }
          NoneWaits(s.rs, 0);
        }
      case RStep(i, _, _) => ReaderForgetsNone(s, i, t);
      case Spurious(i) =>
        if SomeWaits(t.rs) {
          WaitedBefore(s.rs, i, RWoken);
          BoundNow(t.rs, i);
        }
    }
  }

  lemma SomeoneThere(rs: seq<RPc>)
    requires SomeWaits(rs)
    ensures rs != []
  {}

  lemma ReaderForgetsNone(s: State, i: nat, t: State)
    requires Counted(s) && NoneForgotten(s) && REnabled(s, i)
    requires exists ok, same :: t == RNext(s, i, ok, same)
    ensures NoneForgotten(t)
  {
    hide SomeWaits, SomeBound, Broadcast;
    if s.rs[i] == REndBroadcast {
      NoneWaits(s.rs, i);
    } else if SomeWaits(t.rs) {
      assert t.rs == s.rs[i := t.rs[i]];
      if t.rs[i] != RWait {
        WaitedBefore(s.rs, i, t.rs[i]);
      }
      if Bound(t.rs[i]) {
        BoundNow(t.rs, i);
      } else if Accounted(t) {
        BoundStays(s.rs, i, t.rs[i]);
      }
    }
  }

  lemma KeepsInv(s: State, a: Act, all: seq<Obj>)
    requires Inv(s, all) && Enabled(s, a)
    ensures Inv(Next(s, a), all)
  {
    hide Next, Conserved, Locked, LeftLate, NoneForgotten, Counted, Enabled;
    KeepsTallied(s, a, all);
    KeepsConserved(s, a, all);
    KeepsLocked(s, a);
    KeepsLeftLate(s, a, all);
    KeepsNoneForgotten(s, a, all);
  }

  // ----- whole runs -----

  // rwt_todo_lists_init, with all threads started.
  function Init(all: seq<Obj>, writers: nat, readers: nat): State {
    State(all, |all|, Nobody, [], 0, Nobody, |all|, 0, 0, 0, [], [],
          seq(writers, _ => WLock), seq(readers, _ => RLock))
  }

  ghost predicate Run(s: State, acts: seq<Act>, t: State)
    decreases |acts|
  {
    if acts == [] then s == t
    else Enabled(s, acts[0]) && Counted(s) && Run(Next(s, acts[0]), acts[1..], t)
  }

  ghost predicate Reachable(all: seq<Obj>, writers: nat, readers: nat, s: State) {
    exists acts :: Run(Init(all, writers, readers), acts, s)
  }

  lemma {:induction false} WritersStartIdle(n: nat, kind: Kind)
    requires !kind.Effort?
    ensures WSum(seq(n, _ => WLock), kind) == 0
  {
    if n > 0 {
      WritersStartIdle(n - 1, kind);
      assert seq(n, _ => WLock)[1..] == seq(n - 1, _ => WLock);
    }
  }

  lemma {:induction false} ReadersStartIdle(n: nat, kind: Kind)
    requires !kind.Effort?
    ensures RSum(seq(n, _ => RLock), kind) == 0
  {
    if n > 0 {
      ReadersStartIdle(n - 1, kind);
      assert seq(n, _ => RLock)[1..] == seq(n - 1, _ => RLock);
    }
  }

  lemma InitInv(all: seq<Obj>, writers: nat, readers: nat)
    ensures Inv(Init(all, writers, readers), all)
  {
    var s := Init(all, writers, readers);
    forall kind: Kind | Objects(kind) ensures Places(s, kind) == InList(all, kind) {
      WritersStartIdle(writers, kind);
      ReadersStartIdle(readers, kind);
    }
  }

  lemma {:induction false} RunKeepsInv(s: State, acts: seq<Act>, t: State, all: seq<Obj>)
    requires Inv(s, all) && Run(s, acts, t)
    ensures Inv(t, all) && |t.ws| == |s.ws| && |t.rs| == |s.rs|
    decreases |acts|
  {
    hide Inv;
    if acts != [] {
      KeepsInv(s, acts[0], all);
      RunKeepsInv(Next(s, acts[0]), acts[1..], t, all);
    }
  }

  // In every reachable state every object is in exactly one place as often as it was to be done,
  // counters and lists agree, no more objects match than are done, readers leave only when all is
  // accounted for, and no wakeup is lost.
  lemma ReachableInv(all: seq<Obj>, writers: nat, readers: nat, s: State)
    requires Reachable(all, writers, readers, s)
    ensures Inv(s, all) && |s.ws| == writers && |s.rs| == readers
  {
    hide Inv;
    var acts :| Run(Init(all, writers, readers), acts, s);
    InitInv(all, writers, readers);
    RunKeepsInv(Init(all, writers, readers), acts, s, all);
  }

  // Objects are handed out to writers in order.
  ghost predicate InOrder(s: State, all: seq<Obj>) {
    |s.wList| <= |all| && s.wList == all[|all| - |s.wList|..]
  }

  lemma {:induction false} HandedOutInOrder(s: State, acts: seq<Act>, t: State, all: seq<Obj>)
    requires Run(s, acts, t) && InOrder(s, all)
    ensures InOrder(t, all)
    decreases |acts|
  {
    hide Next, Enabled, InOrder;
    if acts != [] {
      KeepsOrder(s, acts[0], all);
      HandedOutInOrder(Next(s, acts[0]), acts[1..], t, all);
    }
  }

  lemma KeepsOrder(s: State, a: Act, all: seq<Obj>)
    requires Counted(s) && Enabled(s, a) && InOrder(s, all)
    ensures InOrder(Next(s, a), all)
  {}

  lemma {:induction false} DistinctOnce(all: seq<Obj>, o: Obj)
    requires forall i, j :: 0 <= i < j < |all| ==> all[i] != all[j]
    ensures InList(all, Only(o)) == if o in all then 1 else 0
  {
    if all != [] {
      DistinctOnce(all[1..], o);
      assert o in all <==> o == all[0] || o in all[1..];
    }
  }

  lemma OnePlaceEach(all: seq<Obj>, writers: nat, readers: nat, s: State, o: Obj)
    requires Reachable(all, writers, readers, s) && forall i, j :: 0 <= i < j < |all| ==> all[i] != all[j]
    ensures Places(s, Only(o)) == if o in all then 1 else 0
  {
    hide Reachable, Places, Locked, LeftLate, NoneForgotten, Tallied;
    ReachableInv(all, writers, readers, s);
    DistinctOnce(all, o);
  }

  // ----- deadlock -----

  predicate Exited(s: State) {
    (forall i :: 0 <= i < |s.ws| ==> s.ws[i] == WExited) && (forall i :: 0 <= i < |s.rs| ==> s.rs[i] == RExited)
  }

  // No thread can take a step unless it wakes up spuriously.
  ghost predicate Stuck(s: State) {
    (forall i: nat :: !WEnabled(s, i)) && (forall i: nat :: !REnabled(s, i))
  }

  // Threads inside a critical section can go on, so in a stuck state no mutex is held, and every
  // thread waits or has exited.
  lemma StuckWaits(s: State)
    requires Locked(s) && Stuck(s)
    ensures forall i :: 0 <= i < |s.ws| ==> s.ws[i] == WExited
    ensures forall i :: 0 <= i < |s.rs| ==> s.rs[i] == RWait || s.rs[i] == RExited
  {
    hide Locked;
    HolderGoesOn(s);
    forall i | 0 <= i < |s.ws| ensures s.ws[i] == WExited {
      assert !WEnabled(s, i);
    }
    forall i | 0 <= i < |s.rs| ensures s.rs[i] == RWait || s.rs[i] == RExited {
      assert !REnabled(s, i);
    }
  }

  lemma HolderGoesOn(s: State)
    requires Locked(s)
    ensures s.wMutex.Writer? ==> WEnabled(s, s.wMutex.w)
    ensures s.rMutex.Writer? ==> WEnabled(s, s.rMutex.w)
    ensures s.rMutex.Reader? ==> REnabled(s, s.rMutex.r)
    ensures !s.wMutex.Reader?
  {}

  lemma {:induction false} IdleHoldNothing(ws: seq<WPc>, rs: seq<RPc>)
    requires forall i :: 0 <= i < |ws| ==> WWeight(ws[i], Any) == 0
    requires forall i :: 0 <= i < |rs| ==> RWeight(rs[i], Any) == 0
    ensures WSum(ws, Any) == 0 && RSum(rs, Any) == 0
    decreases |ws| + |rs|
  {
    if ws != [] {
      IdleHoldNothing(ws[1..], rs);
    } else if rs != [] {
      IdleHoldNothing(ws, rs[1..]);
    }
  }

  // With at least one writer, only a state in which all threads have exited is stuck.
  lemma StuckOnlyAtTheEnd(s: State, all: seq<Obj>)
    requires Inv(s, all) && Stuck(s) && (s.ws != [] || all == [])
    ensures Exited(s)
  {
    hide Conserved, WriteLocked, ReadLocked, WEnabled, REnabled;
    StuckWaits(s);
    IdleHoldNothing(s.ws, s.rs);
    Total(s, all);
    if s.ws != [] {
      assert WLeft(s.ws[0]);
    }
    NoneBound(s.rs);
    assert SomeWaits(s.rs) ==> Accounted(s);
    assert forall i :: 0 <= i < |s.rs| ==> s.rs[i] != RWait;
  }

  lemma NoneBound(rs: seq<RPc>)
    requires forall i :: 0 <= i < |rs| ==> rs[i] == RWait || rs[i] == RExited
    ensures !SomeBound(rs)
  {}

  lemma AllWait(all: seq<Obj>, readers: nat, n: nat) returns (s: State)
    requires all != [] && n <= readers
    ensures Reachable(all, 0, readers, s)
    ensures s == Init(all, 0, readers).(rs := seq(readers, i => if i < n then RWait else RLock))
  {
    var first := Init(all, 0, readers);
    if n == 0 {
      s := first;
      assert s.rs == seq(readers, i => if i < n then RWait else RLock);
      assert Run(first, [], s);
    } else {
      var t := AllWait(all, readers, n - 1);
      s := t.(rs := t.rs[n - 1 := RWait]);
      assert s.rs == seq(readers, i => if i < n then RWait else RLock);
      var acts :| Run(first, acts, t);
      var step := RStep(n - 1, false, false);
      var u := Next(t, step);
      assert u.rs[n - 1] == RCheck;
      assert Next(u, step).rs == s.rs;
      assert Run(u, [step], s) by { assert Run(s, [], s); }
      assert Run(t, [step, step], s) by { assert [step, step][1..] == [step]; }
      RunsJoin(first, acts, t, [step, step], s);
    }
  }

  lemma {:induction false} RunsJoin(s: State, a: seq<Act>, t: State, b: seq<Act>, u: State)
    requires Run(s, a, t) && Run(t, b, u)
    ensures Run(s, a + b, u)
    decreases |a|
  {
    if a == [] {
      assert a + b == b;
    } else {
      RunsJoin(Next(s, a[0]), a[1..], t, b, u);
      assert (a + b)[1..] == a[1..] + b && (a + b)[0] == a[0];
    }
  }

  // The system can get stuck with threads unfinished exactly when there are objects, readers to
  // wait for them, and no writer.
  lemma DeadlockExactlyWhen(all: seq<Obj>, writers: nat, readers: nat)
    ensures (exists s :: Reachable(all, writers, readers, s) && Stuck(s) && !Exited(s))
            <==> writers == 0 && readers > 0 && all != []
  {
    hide Inv, Stuck, Exited, Reachable;
    if writers == 0 && readers > 0 && all != [] {
      var s := AllWait(all, readers, readers);
      StuckWhenAllWait(s);
    } else {
      forall s | Reachable(all, writers, readers, s) && Stuck(s) ensures Exited(s) {
        ReachableInv(all, writers, readers, s);
        if writers == 0 && all != [] {
          NobodyThere(s);
        } else {
          StuckOnlyAtTheEnd(s, all);
        }
      }
    }
  }

  lemma NobodyThere(s: State)
    requires s.ws == [] && s.rs == []
    ensures Exited(s)
  {}

  lemma StuckWhenAllWait(s: State)
    requires s.ws == [] && s.rs != [] && forall i :: 0 <= i < |s.rs| ==> s.rs[i] == RWait
    ensures Stuck(s) && !Exited(s)
  {
    assert s.rs[0] == RWait;
  }

  // ----- termination -----

  // What is left to do.
  function EffortOf(s: State, kind: Kind): nat
    requires kind.Effort?
  {
    |s.wList| * (kind.k + 4 + ReadWork()) + WSum(s.ws, kind) + |s.rList| * ReadWork() + RSum(s.rs, kind)
  }

  // With every step counted, a broadcast costs at most two steps of every reader.
  function EffortLeft(s: State): nat {
    EffortOf(s, Effort(2 * |s.rs| + 1, true))
  }

  lemma WriterProgress(s: State, i: nat, ok: bool, kind: Kind)
    requires WEnabled(s, i) && Counted(s) && kind.Effort? && Cost(kind, |s.rs|) < kind.k
    ensures EffortOf(WNext(s, i, ok), kind) < EffortOf(s, kind)
  {
    hide WSum, RSum, Broadcast;
    var t, k := WNext(s, i, ok), kind.k;
    WSumUpdate(s.ws, i, t.ws[i], kind);
    BroadcastSum(s.rs, kind);
    if s.wList != [] {
      OneLess(|s.wList|, k + 4 + ReadWork());
    }
  }

  lemma OneLess(n: nat, c: nat)
    requires n > 0
    ensures n * c == (n - 1) * c + c
  {}

  // A reader wakes up, or waits again.
  predicate Futile(s: State, i: nat)
    requires REnabled(s, i)
  {
    s.rs[i] == RWoken || (s.rs[i] == RCheck && s.rCount == 0 && !Accounted(s))
  }

  lemma ReaderProgress(s: State, i: nat, ok: bool, same: bool, kind: Kind)
    requires REnabled(s, i) && Counted(s) && kind.Effort? && Cost(kind, |s.rs|) < kind.k
    ensures if !kind.waits && Futile(s, i) then EffortOf(RNext(s, i, ok, same), kind) == EffortOf(s, kind)
            else EffortOf(RNext(s, i, ok, same), kind) < EffortOf(s, kind)
  {
    hide WSum, RSum, Broadcast;
    var t := RNext(s, i, ok, same);
    if s.rs[i] == REndBroadcast {
      BroadcastSum(s.rs, kind);
      RSumUpdate(Broadcast(s.rs), i, RExited, kind);
    } else {
      RSumUpdate(s.rs, i, t.rs[i], kind);
    }
  }

  function SpuriousIn(acts: seq<Act>): nat {
    if acts == [] then 0 else (if acts[0].Spurious? then 1 else 0) + SpuriousIn(acts[1..])
  }

  // Every run is bounded by the effort left at its start and three steps for every spurious
  // wakeup in it.
  lemma {:induction false} RunsEnd(s: State, acts: seq<Act>, t: State)
    requires Run(s, acts, t)
    ensures |acts| + EffortLeft(t) <= EffortLeft(s) + 3 * SpuriousIn(acts)
    decreases |acts|
  {
    hide EffortLeft, Next, Enabled;
    if acts != [] {
      StepEffort(s, acts[0]);
      RunsEnd(Next(s, acts[0]), acts[1..], t);
    }
  }

  lemma StepEffort(s: State, a: Act)
    requires Enabled(s, a) && Counted(s)
    ensures EffortLeft(Next(s, a)) + 1 <= EffortLeft(s) + if a.Spurious? then 3 else 0
  {
    hide EffortOf, WNext, RNext, WEnabled, REnabled;
    var kind := Effort(2 * |s.rs| + 1, true);
    SameReaders(s, a);
    match a
    case WStep(i, ok) => WriterProgress(s, i, ok, kind);
    case RStep(i, ok, same) => ReaderProgress(s, i, ok, same, kind);
    case Spurious(i) => SpuriousCost(s, i, kind);
  }

  lemma SameReaders(s: State, a: Act)
    requires Enabled(s, a) && Counted(s)
    ensures |Next(s, a).ws| == |s.ws| && |Next(s, a).rs| == |s.rs|
  {}

  lemma SpuriousCost(s: State, i: nat, kind: Kind)
    requires i < |s.rs| && s.rs[i] == RWait && kind.Effort?
    ensures EffortOf(s.(rs := s.rs[i := RWoken]), kind) == EffortOf(s, kind) + Cost(kind, 1)
  {
    hide WSum, RSum;
    RSumUpdate(s.rs, i, RWoken, kind);
  }

  // Without spurious wakeups a run that cannot go on has come to the end, within the effort there
  // was at the start.
  lemma EveryRunEnds(all: seq<Obj>, writers: nat, readers: nat, acts: seq<Act>, s: State)
    requires Run(Init(all, writers, readers), acts, s) && Stuck(s) && SpuriousIn(acts) == 0
    requires writers > 0 || readers == 0 || all == []
    ensures Exited(s) && |acts| <= EffortLeft(Init(all, writers, readers))
  {
    hide Stuck, EffortLeft, Exited, Run;
    RunsEnd(Init(all, writers, readers), acts, s);
    assert Reachable(all, writers, readers, s);
    DeadlockExactlyWhen(all, writers, readers);
  }

  // When all threads have exited, every object is done or failed.
  lemma AllAccountedAtTheEnd(all: seq<Obj>, writers: nat, readers: nat, s: State)
    requires Reachable(all, writers, readers, s) && Exited(s) && readers > 0
    ensures s.done + s.failed == |all| && s.wList == [] && s.rList == []
  {
    hide Conserved, Reachable, Locked, NoneForgotten;
    ReachableInv(all, writers, readers, s);
    assert RLeft(s.rs[0]);
    Total(s, all);
  }
}
