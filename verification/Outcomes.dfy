// What becomes of the objects of the pipeline, by the outcomes of their I/O: an object is read only
// if it was written, done only if it was written and read, and failed only if one of these failed.
module Outcomes {
  import opened Pipeline

  // The I/O of one object and how it ended.
  datatype Event = Wrote(o: Obj, ok: bool) | WasRead(o: Obj, ok: bool, same: bool)

  // What a step ends: the I/O of the thread that takes it, with the outcome the step gives.
  function Ended(s: State, a: Act): seq<Event> {
    match a
    case WStep(i, ok) => if i < |s.ws| && s.ws[i].Writing? then [Wrote(s.ws[i].o, ok)] else []
    case RStep(i, ok, same) => if i < |s.rs| && s.rs[i].Reading? then [WasRead(s.rs[i].o, ok, same)] else []
    case Spurious(_) => []
  }

  // All I/O of a run.
  ghost function Log(s: State, acts: seq<Act>): seq<Event>
    decreases |acts|
  {
    if acts == [] || !Enabled(s, acts[0]) || !Counted(s) then []
    else Ended(s, acts[0]) + Log(Next(s, acts[0]), acts[1..])
  }

  function Is(e: Event, kind: Kind): nat {
    match kind
    case Written(o, ok) => if e == Wrote(o, ok) then 1 else 0
    case HasRead(o, ok) => if e.WasRead? && e.o == o && e.ok == ok then 1 else 0
    case ReadWell(same) => if e.WasRead? && e.ok && (same ==> e.same) then 1 else 0
    case _ => 0
  }

  function Times(log: seq<Event>, kind: Kind): nat {
    if log == [] then 0 else Is(log[0], kind) + Times(log[1..], kind)
  }

  lemma {:induction false} TimesJoin(a: seq<Event>, b: seq<Event>, kind: Kind)
    ensures Times(a + b, kind) == Times(a, kind) + Times(b, kind)
  {
    if a == [] {
      assert a + b == b;
    } else {
      TimesJoin(a[1..], b, kind);
      assert (a + b)[1..] == a[1..] + b && (a + b)[0] == a[0];
    }
  }

  lemma TimesEnded(s: State, a: Act)
    ensures |Ended(s, a)| <= 1
    ensures forall kind :: Times(Ended(s, a), kind) == if Ended(s, a) == [] then 0 else Is(Ended(s, a)[0], kind)
  {
    forall e: Event, kind ensures Times([e], kind) == Is(e, kind) {
      assert [e][1..] == [];
    }
  }

  // ----- the books -----

  // Failed, recorded or not yet; done; to be read; read well.
  function Failing(s: State, o: Obj): nat {
    InList(s.failedObjs, Only(o)) + WSum(s.ws, Written(o, false)) + RSum(s.rs, HasRead(o, false))
  }

  function Doing(s: State, o: Obj): nat {
    InList(s.doneObjs, Only(o)) + RSum(s.rs, HasRead(o, true))
  }

  function ToRead(s: State, o: Obj): nat {
    InList(s.rList, Only(o)) + WSum(s.ws, Written(o, true)) + RSum(s.rs, Taken(o))
  }

  function Well(s: State, same: bool): nat {
    (if same then s.matched else s.done) + RSum(s.rs, ReadWell(same))
  }

  // What the events `log` make of the books.
  ghost predicate Booked(s: State, t: State, log: seq<Event>, o: Obj) {
    && Failing(t, o) == Failing(s, o) + Times(log, Written(o, false)) + Times(log, HasRead(o, false))
    && Doing(t, o) == Doing(s, o) + Times(log, HasRead(o, true))
    && ToRead(t, o) + Times(log, HasRead(o, true)) + Times(log, HasRead(o, false))
       == ToRead(s, o) + Times(log, Written(o, true))
  }

  ghost predicate Marked(s: State, t: State, log: seq<Event>, same: bool) {
    Well(t, same) == Well(s, same) + Times(log, ReadWell(same))
  }

  lemma WriterBooks(s: State, i: nat, ok: bool, o: Obj, same: bool)
    requires WEnabled(s, i) && Counted(s)
    ensures var t, e := WNext(s, i, ok), Ended(s, WStep(i, ok)); Booked(s, t, e, o) && Marked(s, t, e, same)
  {
    hide WSum, RSum, Broadcast, Times;
    var t := WNext(s, i, ok);
    TimesEnded(s, WStep(i, ok));
    WSumUpdate(s.ws, i, t.ws[i], Written(o, true));
    WSumUpdate(s.ws, i, t.ws[i], Written(o, false));
    BroadcastSum(s.rs, HasRead(o, true));
    BroadcastSum(s.rs, HasRead(o, false));
    BroadcastSum(s.rs, Taken(o));
    BroadcastSum(s.rs, ReadWell(same));
    match s.ws[i]
    case WPush(p, _) =>
      InListCons(p, s.rList, Only(o));
      InListCons(p, s.failedObjs, Only(o));
    case _ =>
  }

  lemma ReaderBooks(s: State, i: nat, ok: bool, same: bool, o: Obj)
    requires REnabled(s, i) && Counted(s)
    ensures Booked(s, RNext(s, i, ok, same), Ended(s, RStep(i, ok, same)), o)
  {
    hide WSum, RSum, Broadcast, Times;
    var t := RNext(s, i, ok, same);
    TimesEnded(s, RStep(i, ok, same));
    ReaderSums(s, i, ok, same, HasRead(o, true));
    ReaderSums(s, i, ok, same, HasRead(o, false));
    ReaderSums(s, i, ok, same, Taken(o));
    match s.rs[i]
    case RRecord(p, _, _) =>
      InListCons(p, s.doneObjs, Only(o));
      InListCons(p, s.failedObjs, Only(o));
    case _ =>
  }

  lemma ReaderMarks(s: State, i: nat, ok: bool, same: bool, same': bool)
    requires REnabled(s, i) && Counted(s)
    ensures Marked(s, RNext(s, i, ok, same), Ended(s, RStep(i, ok, same)), same')
  {
    hide WSum, RSum, Broadcast, Times;
    TimesEnded(s, RStep(i, ok, same));
    ReaderSums(s, i, ok, same, ReadWell(same'));
  }

  lemma ReaderSums(s: State, i: nat, ok: bool, same: bool, kind: Kind)
    requires REnabled(s, i) && Counted(s) && !kind.Effort?
    ensures var t := RNext(s, i, ok, same);
            i < |t.rs| && RSum(t.rs, kind) + RWeight(s.rs[i], kind) == RSum(s.rs, kind) + RWeight(t.rs[i], kind)
  {
    hide WSum, RSum, RWeight, Broadcast;
    if s.rs[i] == REndBroadcast {
      BroadcastSum(s.rs, kind);
      RSumUpdate(Broadcast(s.rs), i, RExited, kind);
      NotWoken(s.rs, i);
    } else {
      RSumUpdate(s.rs, i, RNext(s, i, ok, same).rs[i], kind);
    }
  }

  lemma NotWoken(rs: seq<RPc>, i: nat)
    requires i < |rs| && rs[i] != RWait
    ensures Broadcast(rs)[i] == rs[i]
  {}

  lemma StepBooks(s: State, a: Act, o: Obj, same: bool)
    requires Enabled(s, a) && Counted(s)
    ensures Booked(s, Next(s, a), Ended(s, a), o) && Marked(s, Next(s, a), Ended(s, a), same)
  {
    hide WNext, RNext, WSum, RSum;
    match a
    case WStep(i, ok) => WriterBooks(s, i, ok, o, same);
    case RStep(i, ok, eq) =>
      ReaderBooks(s, i, ok, eq, o);
      ReaderMarks(s, i, ok, eq, same);
    case Spurious(i) =>
      RSumUpdate(s.rs, i, RWoken, HasRead(o, true));
      RSumUpdate(s.rs, i, RWoken, HasRead(o, false));
      RSumUpdate(s.rs, i, RWoken, Taken(o));
      RSumUpdate(s.rs, i, RWoken, ReadWell(same));
  }

  lemma BooksJoin(s: State, t: State, u: State, a: seq<Event>, b: seq<Event>, o: Obj, same: bool)
    requires Booked(s, t, a, o) && Booked(t, u, b, o) && Marked(s, t, a, same) && Marked(t, u, b, same)
    ensures Booked(s, u, a + b, o) && Marked(s, u, a + b, same)
  {
    hide Failing, Doing, ToRead, Well, Times;
    TimesJoin(a, b, Written(o, true));
    TimesJoin(a, b, Written(o, false));
    TimesJoin(a, b, HasRead(o, true));
    TimesJoin(a, b, HasRead(o, false));
    TimesJoin(a, b, ReadWell(same));
  }

  lemma {:induction false} RunBooks(s: State, acts: seq<Act>, t: State, o: Obj, same: bool)
    requires Run(s, acts, t)
    ensures Booked(s, t, Log(s, acts), o) && Marked(s, t, Log(s, acts), same)
    decreases |acts|
  {
    hide Booked, Marked, Next, Enabled, Ended;
    if acts == [] {
      NothingBooked(s, o, same);
    } else {
      StepBooks(s, acts[0], o, same);
      RunBooks(Next(s, acts[0]), acts[1..], t, o, same);
      BooksJoin(s, Next(s, acts[0]), t, Ended(s, acts[0]), Log(Next(s, acts[0]), acts[1..]), o, same);
    }
  }

  lemma NothingBooked(s: State, o: Obj, same: bool)
    ensures Booked(s, s, [], o) && Marked(s, s, [], same)
  {}

  // ----- whole runs -----

  // In every reachable state, for every object: as often as it was written successfully it is on the
  // read list, in a reader's hands or read; as often as it was read successfully it is done or about to
  // be; and as often as writing or reading it failed it is failed or about to be. Readers count as
  // matched what they read with the same digest.
  lemma EveryOutcome(all: seq<Obj>, writers: nat, readers: nat, acts: seq<Act>, s: State, o: Obj, same: bool)
    requires Run(Init(all, writers, readers), acts, s)
    ensures var log := Log(Init(all, writers, readers), acts);
            && Failing(s, o) == Times(log, Written(o, false)) + Times(log, HasRead(o, false))
            && Doing(s, o) == Times(log, HasRead(o, true))
            && ToRead(s, o) + Times(log, HasRead(o, true)) + Times(log, HasRead(o, false)) == Times(log, Written(o, true))
            && Well(s, same) == Times(log, ReadWell(same))
  {
    hide Run, Times, Log;
    RunBooks(Init(all, writers, readers), acts, s, o, same);
    StartIdle(writers, readers, Written(o, true));
    StartIdle(writers, readers, Written(o, false));
    StartIdle(writers, readers, HasRead(o, true));
    StartIdle(writers, readers, HasRead(o, false));
    StartIdle(writers, readers, Taken(o));
    StartIdle(writers, readers, ReadWell(same));
  }

  lemma StartIdle(writers: nat, readers: nat, kind: Kind)
    requires !kind.Effort?
    ensures WSum(seq(writers, _ => WLock), kind) == 0 && RSum(seq(readers, _ => RLock), kind) == 0
  {
    WritersStartIdle(writers, kind);
    ReadersStartIdle(readers, kind);
  }

  lemma {:induction false} InListAtLeast(l: seq<Obj>, o: Obj)
    ensures o in l <==> InList(l, Only(o)) > 0
  {
    if l != [] {
      InListAtLeast(l[1..], o);
    }
  }

  lemma {:induction false} Happened(log: seq<Event>, kind: Kind)
    ensures Times(log, kind) > 0 <==> exists e :: e in log && Is(e, kind) > 0
  {
    if log != [] {
      Happened(log[1..], kind);
      assert log == [log[0]] + log[1..];
    }
  }

  // A reader that is reading, or about to record what it read.
  lemma {:induction false} InHand(rs: seq<RPc>, i: nat, kind: Kind)
    requires i < |rs|
    ensures RWeight(rs[i], kind) <= RSum(rs, kind)
  {
    if i > 0 {
      InHand(rs[1..], i - 1, kind);
    }
  }

  ghost predicate SomeRead(log: seq<Event>, o: Obj, ok: bool) {
    exists same :: WasRead(o, ok, same) in log
  }

  lemma LogSays(log: seq<Event>, o: Obj, ok: bool)
    ensures Times(log, Written(o, ok)) > 0 <==> Wrote(o, ok) in log
    ensures Times(log, HasRead(o, ok)) > 0 <==> SomeRead(log, o, ok)
  {
    hide Times;
    Happened(log, Written(o, ok));
    Happened(log, HasRead(o, ok));
    assert Is(Wrote(o, ok), Written(o, ok)) == 1;
    if SomeRead(log, o, ok) {
      var same :| WasRead(o, ok, same) in log;
      assert Is(WasRead(o, ok, same), HasRead(o, ok)) == 1;
    }
    if e :| e in log && Is(e, HasRead(o, ok)) > 0 {
      assert e == WasRead(o, ok, e.same);
    }
  }

  // What is to be read was written; what is done was written and read; what has failed failed in one
  // or the other.
  lemma OnlyByOutcome(all: seq<Obj>, writers: nat, readers: nat, acts: seq<Act>, s: State, o: Obj)
    requires Run(Init(all, writers, readers), acts, s)
    ensures var log := Log(Init(all, writers, readers), acts);
            && (o in s.rList || (exists i :: 0 <= i < |s.rs| && s.rs[i] == Reading(o)) ==> Wrote(o, true) in log)
            && (o in s.doneObjs ==> Wrote(o, true) in log && SomeRead(log, o, true))
            && (o in s.failedObjs ==> Wrote(o, false) in log || SomeRead(log, o, false))
  {
    hide Run, Log, Times, SomeRead, InList, WSum, RSum;
    var log := Log(Init(all, writers, readers), acts);
    EveryOutcome(all, writers, readers, acts, s, o, true);
    InListAtLeast(s.rList, o);
    InListAtLeast(s.doneObjs, o);
    InListAtLeast(s.failedObjs, o);
    LogSays(log, o, true);
    LogSays(log, o, false);
    if i :| 0 <= i < |s.rs| && s.rs[i] == Reading(o) {
      InHand(s.rs, i, Taken(o));
    }
  }

  // When all threads have exited, an object is done exactly when it was written and read, failed exactly
  // when one of these failed, and matched is how often a reader read the digest that was written.
  lemma AtTheEnd(all: seq<Obj>, writers: nat, readers: nat, acts: seq<Act>, s: State, o: Obj)
    requires Run(Init(all, writers, readers), acts, s) && Exited(s)
    ensures var log := Log(Init(all, writers, readers), acts);
            && (o in s.doneObjs <==> Wrote(o, true) in log && SomeRead(log, o, true))
            && (o in s.failedObjs <==> Wrote(o, false) in log || SomeRead(log, o, false))
            && s.matched == Times(log, ReadWell(true)) && s.done == Times(log, ReadWell(false))
  {
    hide Run, Log, Times, SomeRead, InList, WSum, RSum;
    var log := Log(Init(all, writers, readers), acts);
    EveryOutcome(all, writers, readers, acts, s, o, true);
    EveryOutcome(all, writers, readers, acts, s, o, false);
    InListAtLeast(s.doneObjs, o);
    InListAtLeast(s.failedObjs, o);
    LogSays(log, o, true);
    LogSays(log, o, false);
    HandsEmpty(s.ws, s.rs, Written(o, true));
    HandsEmpty(s.ws, s.rs, Written(o, false));
    HandsEmpty(s.ws, s.rs, HasRead(o, true));
    HandsEmpty(s.ws, s.rs, HasRead(o, false));
    HandsEmpty(s.ws, s.rs, ReadWell(true));
    HandsEmpty(s.ws, s.rs, ReadWell(false));
  }

  lemma {:induction false} HandsEmpty(ws: seq<WPc>, rs: seq<RPc>, kind: Kind)
    requires forall i :: 0 <= i < |ws| ==> ws[i] == WExited
    requires forall i :: 0 <= i < |rs| ==> rs[i] == RExited
    requires !kind.Effort?
    ensures WSum(ws, kind) == 0 && RSum(rs, kind) == 0
    decreases |ws| + |rs|
  {
    if ws != [] {
      HandsEmpty(ws[1..], rs, kind);
    } else if rs != [] {
      HandsEmpty(ws, rs[1..], kind);
    }
  }

  // By then every object has been written as often as it was to be, and read as often as it was written
  // successfully.
  lemma EachOnce(all: seq<Obj>, writers: nat, readers: nat, acts: seq<Act>, s: State, o: Obj)
    requires Run(Init(all, writers, readers), acts, s) && Exited(s) && readers > 0
    ensures var log := Log(Init(all, writers, readers), acts);
            && Times(log, Written(o, true)) + Times(log, Written(o, false)) == InList(all, Only(o))
            && Times(log, HasRead(o, true)) + Times(log, HasRead(o, false)) == Times(log, Written(o, true))
  {
    hide Run, Log, Times, WSum, RSum, Locked, LeftLate, NoneForgotten;
    assert Reachable(all, writers, readers, s);
    ReachableInv(all, writers, readers, s);
    AllAccountedAtTheEnd(all, writers, readers, s);
    EveryOutcome(all, writers, readers, acts, s, o, true);
    HandsEmpty(s.ws, s.rs, Only(o));
    HandsEmpty(s.ws, s.rs, Written(o, true));
    HandsEmpty(s.ws, s.rs, Written(o, false));
    HandsEmpty(s.ws, s.rs, HasRead(o, true));
    HandsEmpty(s.ws, s.rs, HasRead(o, false));
    HandsEmpty(s.ws, s.rs, Taken(o));
    assert Places(s, Only(o)) == InList(all, Only(o));
  }

  // ----- runs in which nothing fails -----

  predicate AllWell(acts: seq<Act>) {
    forall i :: 0 <= i < |acts| ==>
      match acts[i]
      case WStep(_, ok) => ok
      case RStep(_, ok, same) => ok && same
      case Spurious(_) => true
  }

  predicate Good(e: Event) {
    match e
    case Wrote(_, ok) => ok
    case WasRead(_, ok, same) => ok && same
  }

  lemma {:induction false} AllGood(s: State, acts: seq<Act>)
    requires AllWell(acts)
    ensures forall e :: e in Log(s, acts) ==> Good(e)
    decreases |acts|
  {
    if acts != [] && Enabled(s, acts[0]) && Counted(s) {
      hide Next, Enabled;
      assert AllWell(acts[1..]) by {
        forall i | 0 <= i < |acts[1..]| ensures acts[1..][i] == acts[i + 1] {}
      }
      AllGood(Next(s, acts[0]), acts[1..]);
      assert forall e :: e in Ended(s, acts[0]) ==> Good(e);
    }
  }

  lemma {:induction false} SameWell(log: seq<Event>)
    requires forall e :: e in log ==> Good(e)
    ensures Times(log, ReadWell(true)) == Times(log, ReadWell(false))
  {
    if log != [] {
      SameWell(log[1..]);
      assert Good(log[0]);
    }
  }

  // When all I/O succeeds and every reader reads what was written, all objects end up done and matched.
  lemma AllDone(all: seq<Obj>, writers: nat, readers: nat, acts: seq<Act>, s: State)
    requires Run(Init(all, writers, readers), acts, s) && Exited(s) && readers > 0 && AllWell(acts)
    ensures s.done == s.matched == |all| && s.failed == 0
  {
    hide Run, Log, Times, Exited, AllWell, SomeRead, Good, Conserved, Locked, LeftLate, NoneForgotten;
    var start := Init(all, writers, readers);
    assert Reachable(all, writers, readers, s);
    ReachableInv(all, writers, readers, s);
    AllAccountedAtTheEnd(all, writers, readers, s);
    AllGood(start, acts);
    SameWell(Log(start, acts));
    AtTheEnd(all, writers, readers, acts, s, 0);
    forall o ensures o !in s.failedObjs {
      AtTheEnd(all, writers, readers, acts, s, o);
      NoFailure(Log(start, acts), o);
    }
    EmptyOrNot(s.failedObjs);
  }

  lemma NoFailure(log: seq<Event>, o: Obj)
    requires forall e :: e in log ==> Good(e)
    ensures Wrote(o, false) !in log && !SomeRead(log, o, false)
  {
    assert !Good(Wrote(o, false)) && forall same :: !Good(WasRead(o, false, same));
  }

  lemma EmptyOrNot(l: seq<Obj>)
    ensures |l| == 0 || exists o :: o in l
  {
    if |l| > 0 {
      assert l[0] in l;
    }
  }
}
