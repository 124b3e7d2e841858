// The reports of the lock test read off the steps of a run alone: whose I/O is in which slot, what is
// in the object, which digests are reported, and what readers print.
module LockReports {
  import opened Errors
  import opened LockOrder

  // How many steps thread `i` has taken.
  function StepsOf(acts: seq<Act>, i: nat): nat {
    if acts == [] then 0
    else StepsOf(acts[..|acts| - 1], i) + if acts[|acts| - 1].i == i then 1 else 0
  }

  // A thread opens the object, locks it and takes a slot; its fourth step is its I/O.
  function IOs(acts: seq<Act>): seq<Act> {
    if acts == [] then []
    else
      var init, a := acts[..|acts| - 1], acts[|acts| - 1];
      IOs(init) + if StepsOf(init, a.i) == 3 then [a] else []
  }

  predicate Writes(roles: seq<Role>, a: Act) { a.i < |roles| && roles[a.i] == WriterRole }

  // What the last write put into the object; a failed one leaves what it pleases.
  function LastWritten(data: Data, roles: seq<Role>, ios: seq<Act>): Data {
    if ios == [] then data
    else if Writes(roles, ios[|ios| - 1]) then ios[|ios| - 1].data
    else LastWritten(data, roles, ios[..|ios| - 1])
  }

  // The digest I/O number `k` reports: of what is in the object when it has ended.
  function Reported(data: Data, roles: seq<Role>, ios: seq<Act>, k: nat, digest: Data -> Digest): Digest
    requires k < |ios|
  {
    if ios[k].ok then digest(LastWritten(data, roles, ios[..k + 1])) else ios[k].junk
  }

  // ----- where every thread is, by its number of steps -----

  predicate Phase(role: Role, pc: Pc, n: nat) {
    match pc
    case Opening => n == 0
    case Locking => n == 1
    case Taking => n == 2
    case InIO(_) => n == 3
    case Printing(_) => n == 4
    case Unlocking => n == 5 || (n == 4 && role == WriterRole)
    case Exited => n == 1 || n == 2 || n == 6 || (n == 5 && role == WriterRole)
  }

  ghost predicate Phases(s: State, acts: seq<Act>) {
    |s.roles| == |s.pcs| && forall i :: 0 <= i < |s.pcs| ==> Phase(s.roles[i], s.pcs[i], StepsOf(acts, i))
  }

  lemma StepsSnoc(acts: seq<Act>, a: Act, i: nat)
    ensures StepsOf(acts + [a], i) == StepsOf(acts, i) + if a.i == i then 1 else 0
  {
    assert (acts + [a])[..|acts|] == acts;
  }

  lemma IOsSnoc(acts: seq<Act>, a: Act)
    ensures IOs(acts + [a]) == if StepsOf(acts, a.i) == 3 then IOs(acts) + [a] else IOs(acts)
  {
    assert (acts + [a])[..|acts|] == acts;
  }

  lemma KeepsPhases(s: State, acts: seq<Act>, a: Act, digest: Data -> Digest)
    requires Phases(s, acts) && Enabled(s, a) && InBounds(s)
    ensures Phases(Next(s, a, digest), acts + [a])
  {
    hide StepsOf;
    var t := Next(s, a, digest);
    forall i | 0 <= i < |t.pcs| ensures Phase(t.roles[i], t.pcs[i], StepsOf(acts + [a], i)) {
      StepsSnoc(acts, a, i);
    }
  }

  // Every thread takes one slot at most, with its third step.
  ghost predicate OneSlotEach(s: State, acts: seq<Act>) {
    && (forall k :: 0 <= k < |s.owners| ==> StepsOf(acts, s.owners[k]) >= 3)
    && (forall j, k :: 0 <= j < k < |s.owners| ==> s.owners[j] != s.owners[k])
  }

  lemma KeepsOneSlotEach(s: State, acts: seq<Act>, a: Act, digest: Data -> Digest)
    requires Phases(s, acts) && OneSlotEach(s, acts) && Enabled(s, a) && InBounds(s)
    ensures OneSlotEach(Next(s, a, digest), acts + [a])
  {
    hide StepsOf;
    var t := Next(s, a, digest);
    forall k | 0 <= k < |t.owners| ensures StepsOf(acts + [a], t.owners[k]) >= 3 {
      StepsSnoc(acts, a, t.owners[k]);
    }
  }

  // ----- the slots -----

  // Slot `k + 1` is that of I/O number `k`.
  ghost predicate SlotIs(s: State, acts: seq<Act>, data: Data, ios: seq<Act>, k: nat, digest: Data -> Digest)
    requires k < |ios| && k + 1 < |s.slots|
  {
    var a, slot := ios[k], s.slots[k + 1];
    && a.i < |s.roles| && slot.role == s.roles[a.i]
    && slot.outcome == (if a.ok then Good else Bad)
    && slot.sum == Reported(data, s.roles, ios, k, digest)
    && slot.verdict == (if slot.role == WriterRole || StepsOf(acts, a.i) < 5 then NotPrinted
                        else if slot.sum == s.slots[k].sum then Matched
                        else Mismatch)
  }

  ghost predicate Books(s: State, acts: seq<Act>, data: Data, digest: Data -> Digest) {
    var ios := IOs(acts);
    && 0 < s.nrDone <= |s.slots| && |ios| == LastFinished(s) && |ios| <= |s.owners| < |s.slots|
    && s.slots[0] == Slot(WriterRole, Good, digest(data), NotPrinted)
    && s.content == LastWritten(data, s.roles, ios)
    && forall k :: 0 <= k < |ios| ==> ios[k].i == s.owners[k] && SlotIs(s, acts, data, ios, k, digest)
  }

  lemma ReportedPrefix(data: Data, roles: seq<Role>, ios: seq<Act>, more: seq<Act>, k: nat, digest: Data -> Digest)
    requires k < |ios|
    ensures Reported(data, roles, ios + more, k, digest) == Reported(data, roles, ios, k, digest)
  {
    assert (ios + more)[..k + 1] == ios[..k + 1];
  }

  lemma LastWrittenSnoc(data: Data, roles: seq<Role>, ios: seq<Act>, a: Act, digest: Data -> Digest)
    ensures LastWritten(data, roles, ios + [a]) == if Writes(roles, a) then a.data else LastWritten(data, roles, ios)
    ensures Reported(data, roles, ios + [a], |ios|, digest) ==
            if a.ok then digest(LastWritten(data, roles, ios + [a])) else a.junk
  {
    assert (ios + [a])[..|ios|] == ios && (ios + [a])[..|ios| + 1] == ios + [a];
  }

  // A step that is neither I/O nor printing leaves what is finished as it is.
  lemma OtherChanges(s: State, a: Act, digest: Data -> Digest)
    requires Inv(s, digest) && Enabled(s, a) && InBounds(s) && !s.pcs[a.i].InIO? && !s.pcs[a.i].Printing?
    ensures var t := Next(s, a, digest);
            && t.roles == s.roles && t.content == s.content && s.owners <= t.owners && |t.owners| + 1 == t.nrDone
            && 0 < s.nrDone <= t.nrDone <= |t.slots| == |s.slots| && LastFinished(t) == LastFinished(s)
            && forall k :: 0 <= k < s.nrDone ==> t.slots[k] == s.slots[k]
  {
    hide Enough, RolesNoted, DigestOfContent, AllFollow, ToCome;
    assert Holds(s.pcs[a.i]) <==> s.holder == Some(a.i);
  }

  lemma OtherStep(s: State, acts: seq<Act>, a: Act, data: Data, digest: Data -> Digest)
    requires Inv(s, digest) && Phases(s, acts) && Books(s, acts, data, digest) && Enabled(s, a) && InBounds(s)
    requires !s.pcs[a.i].InIO? && !s.pcs[a.i].Printing?
    ensures Books(Next(s, a, digest), acts + [a], data, digest)
  {
    hide StepsOf, IOs, LastWritten, Reported, Inv, Next, InBounds, SlotIs;
    var t, ios := Next(s, a, digest), IOs(acts);
    OtherChanges(s, a, digest);
    assert Phase(s.roles[a.i], s.pcs[a.i], StepsOf(acts, a.i));
    IOsSnoc(acts, a);
    assert ios + [] == ios;
    forall k | 0 <= k < |ios| ensures SlotIs(t, acts + [a], data, ios, k, digest) {
      StepsSnoc(acts, a, ios[k].i);
      SlotStays(s, t, acts, acts + [a], data, ios, [], k, digest);
    }
  }

  lemma SlotStays(s: State, t: State, acts: seq<Act>, acts': seq<Act>, data: Data, ios: seq<Act>, more: seq<Act>, k: nat,
                  digest: Data -> Digest)
    requires k < |ios| && k + 1 < |s.slots| == |t.slots| && SlotIs(s, acts, data, ios, k, digest)
    requires t.roles == s.roles && t.slots[k] == s.slots[k] && t.slots[k + 1] == s.slots[k + 1]
    requires Writes(t.roles, ios[k]) || (StepsOf(acts', ios[k].i) < 5 <==> StepsOf(acts, ios[k].i) < 5)
    requires Reported(data, s.roles, ios + more, k, digest) == Reported(data, s.roles, ios, k, digest)
    ensures SlotIs(t, acts', data, ios + more, k, digest)
  {
    hide StepsOf, Reported;
    assert (ios + more)[k] == ios[k];
  }

  // What the I/O of the lock's holder changes: the last slot taken, which is its own and unfinished.
  lemma IOChanges(s: State, a: Act, digest: Data -> Digest)
    requires Inv(s, digest) && Enabled(s, a) && InBounds(s) && s.pcs[a.i].InIO?
    ensures 1 < s.nrDone <= |s.slots| && |s.owners| == s.nrDone - 1 && s.owners[s.nrDone - 2] == a.i
    ensures LastFinished(s) == s.nrDone - 2
    ensures s.slots[s.nrDone - 1].role == s.roles[a.i] && s.slots[s.nrDone - 1].verdict == NotPrinted
    ensures var t, n := Next(s, a, digest), s.nrDone - 1;
            && t.roles == s.roles && t.owners == s.owners && t.nrDone == s.nrDone && |t.slots| == |s.slots|
            && t.content == (if Writes(s.roles, a) then a.data else s.content)
            && t.slots == s.slots[n := s.slots[n].(outcome := if a.ok then Good else Bad,
                                                   sum := if a.ok then digest(t.content) else a.junk)]
            && LastFinished(t) == n
  {
    hide Enough, DigestOfContent, AllFollow, ToCome;
    assert WorksOn(s.pcs[a.i], s.nrDone - 1);
    assert Holds(s.pcs[a.i]) <==> s.holder == Some(a.i);
    assert s.owners[|s.owners| - 1] == a.i;
  }

  lemma IOStep(s: State, acts: seq<Act>, a: Act, data: Data, digest: Data -> Digest)
    requires Inv(s, digest) && Phases(s, acts) && OneSlotEach(s, acts) && Books(s, acts, data, digest)
    requires Enabled(s, a) && InBounds(s) && s.pcs[a.i].InIO?
    ensures Books(Next(s, a, digest), acts + [a], data, digest)
  {
    hide StepsOf, IOs, LastWritten, Reported, Inv, Next, InBounds, SlotIs;
    var t, ios := Next(s, a, digest), IOs(acts);
    IOChanges(s, a, digest);
    assert Phase(s.roles[a.i], s.pcs[a.i], StepsOf(acts, a.i));
    IOsSnoc(acts, a);
    LastWrittenSnoc(data, s.roles, ios, a, digest);
    forall k | 0 <= k < |ios| + 1 ensures SlotIs(t, acts + [a], data, ios + [a], k, digest) {
      StepsSnoc(acts, a, (ios + [a])[k].i);
      if k < |ios| {
        assert ios[k].i == s.owners[k] != s.owners[|ios|];
        ReportedPrefix(data, s.roles, ios, [a], k, digest);
        SlotStays(s, t, acts, acts + [a], data, ios, [a], k, digest);
      } else {
        NewSlot(t, acts + [a], data, ios, a, digest);
      }
    }
  }

  lemma NewSlot(t: State, acts: seq<Act>, data: Data, ios: seq<Act>, a: Act, digest: Data -> Digest)
    requires |ios| + 1 < |t.slots| && a.i < |t.roles| && StepsOf(acts, a.i) < 5
    requires var slot := t.slots[|ios| + 1];
             && slot.role == t.roles[a.i] && slot.verdict == NotPrinted && slot.outcome == (if a.ok then Good else Bad)
             && slot.sum == Reported(data, t.roles, ios + [a], |ios|, digest)
    ensures SlotIs(t, acts, data, ios + [a], |ios|, digest)
  {
    hide StepsOf, Reported;
  }

  // Printing changes the verdict in the holder's slot, the last one, if it is a reader.
  lemma PrintChanges(s: State, a: Act, digest: Data -> Digest)
    requires Inv(s, digest) && Enabled(s, a) && InBounds(s) && s.pcs[a.i].Printing?
    ensures 1 < s.nrDone <= |s.slots| && |s.owners| == s.nrDone - 1 && s.owners[s.nrDone - 2] == a.i
    ensures LastFinished(s) == s.nrDone - 1 && s.slots[s.nrDone - 1].role == s.roles[a.i]
    ensures var t, n := Next(s, a, digest), s.nrDone - 1;
            && t.roles == s.roles && t.owners == s.owners && t.nrDone == s.nrDone && t.content == s.content
            && t.slots == s.slots[n := if s.roles[a.i] == WriterRole then s.slots[n]
                                       else s.slots[n].(verdict := if s.slots[n].sum == s.slots[n - 1].sum then Matched
                                                                   else Mismatch)]
            && LastFinished(t) == n
  {
    hide Enough, DigestOfContent, AllFollow, ToCome;
    assert WorksOn(s.pcs[a.i], s.nrDone - 1);
    assert Holds(s.pcs[a.i]) <==> s.holder == Some(a.i);
    assert s.owners[|s.owners| - 1] == a.i;
  }

  lemma PrintStep(s: State, acts: seq<Act>, a: Act, data: Data, digest: Data -> Digest)
    requires Inv(s, digest) && Phases(s, acts) && OneSlotEach(s, acts) && Books(s, acts, data, digest)
    requires Enabled(s, a) && InBounds(s) && s.pcs[a.i].Printing?
    ensures Books(Next(s, a, digest), acts + [a], data, digest)
  {
    hide StepsOf, IOs, LastWritten, Reported, Inv, Next, InBounds, SlotIs;
    var t, ios := Next(s, a, digest), IOs(acts);
    PrintChanges(s, a, digest);
    assert Phase(s.roles[a.i], s.pcs[a.i], StepsOf(acts, a.i));
    IOsSnoc(acts, a);
    forall k | 0 <= k < |ios| ensures SlotIs(t, acts + [a], data, ios, k, digest) {
      StepsSnoc(acts, a, ios[k].i);
      if k < |ios| - 1 {
        assert ios[k].i == s.owners[k] != s.owners[|ios| - 1];
        assert ios + [] == ios;
        SlotStays(s, t, acts, acts + [a], data, ios, [], k, digest);
      } else {
        SlotPrinted(s, t, acts, acts + [a], data, ios, k, digest);
      }
    }
  }

  lemma SlotPrinted(s: State, t: State, acts: seq<Act>, acts': seq<Act>, data: Data, ios: seq<Act>, k: nat,
                    digest: Data -> Digest)
    requires k < |ios| && k + 1 < |s.slots| == |t.slots| && SlotIs(s, acts, data, ios, k, digest)
    requires t.roles == s.roles && t.slots[k] == s.slots[k] && StepsOf(acts', ios[k].i) == 5
    requires t.slots[k + 1] ==
             if s.slots[k + 1].role == WriterRole then s.slots[k + 1]
             else s.slots[k + 1].(verdict := if s.slots[k + 1].sum == s.slots[k].sum then Matched else Mismatch)
    ensures SlotIs(t, acts', data, ios, k, digest)
  {
    hide StepsOf, Reported;
  }

  // ----- whole runs -----

  lemma {:induction false} LastStep(s: State, acts: seq<Act>, t: State, digest: Data -> Digest) returns (u: State)
    requires acts != [] && Run(s, acts, t, digest)
    ensures var n := |acts| - 1;
            Run(s, acts[..n], u, digest) && Enabled(u, acts[n]) && InBounds(u) && t == Next(u, acts[n], digest)
    decreases |acts|
  {
    hide Next, Enabled, InBounds;
    var n := |acts| - 1;
    if n == 0 {
      u := s;
      assert acts[..0] == [] && acts[1..] == [];
    } else {
      u := LastStep(Next(s, acts[0], digest), acts[1..], t, digest);
      assert acts[1..][..n - 1] == acts[..n][1..] && acts[..n][0] == acts[0] && acts[1..][n - 1] == acts[n];
    }
  }

  lemma StartBooks(roles: seq<Role>, data: Data, digest: Data -> Digest)
    ensures var s := Init(roles, data, digest);
            Phases(s, []) && OneSlotEach(s, []) && Books(s, [], data, digest)
  {}

  lemma {:induction false} RunBooks(roles: seq<Role>, data: Data, digest: Data -> Digest, acts: seq<Act>, s: State)
    requires Run(Init(roles, data, digest), acts, s, digest)
    ensures Phases(s, acts) && OneSlotEach(s, acts) && Books(s, acts, data, digest) && s.roles == roles
    decreases |acts|
  {
    hide Next, Enabled, InBounds, Phases, OneSlotEach, Books, Inv;
    if acts == [] {
      StartBooks(roles, data, digest);
    } else {
      var init, a := acts[..|acts| - 1], acts[|acts| - 1];
      var u := LastStep(Init(roles, data, digest), acts, s, digest);
      RunBooks(roles, data, digest, init, u);
      InitInv(roles, data, digest);
      RunKeepsInv(Init(roles, data, digest), init, u, digest);
      assert acts == init + [a];
      KeepsPhases(u, init, a, digest);
      KeepsOneSlotEach(u, init, a, digest);
      StepBooks(u, init, a, data, digest);
    }
  }

  lemma StepBooks(s: State, acts: seq<Act>, a: Act, data: Data, digest: Data -> Digest)
    requires Inv(s, digest) && Phases(s, acts) && OneSlotEach(s, acts) && Books(s, acts, data, digest)
    requires Enabled(s, a) && InBounds(s)
    ensures Books(Next(s, a, digest), acts + [a], data, digest) && Next(s, a, digest).roles == s.roles
  {
    hide Inv, Phases, OneSlotEach, Books, InBounds;
    if s.pcs[a.i].InIO? {
      IOStep(s, acts, a, data, digest);
    } else if s.pcs[a.i].Printing? {
      PrintStep(s, acts, a, data, digest);
    } else {
      OtherStep(s, acts, a, data, digest);
    }
  }

  // In every interleaving, from the steps alone: the object holds what was written last; I/O number `k`
  // has slot `k + 1`, with its outcome and, if it succeeded, the digest of what is in the object when it
  // ends; and a reader that has printed says whether that is the digest in the slot before.
  lemma Reports(roles: seq<Role>, data: Data, digest: Data -> Digest, acts: seq<Act>, s: State)
    requires Run(Init(roles, data, digest), acts, s, digest)
    ensures var ios := IOs(acts);
            && |ios| < |s.slots| && s.content == LastWritten(data, roles, ios)
            && s.slots[0].outcome == Good && s.slots[0].sum == digest(data)
            && forall k :: 0 <= k < |ios| ==>
                 var a, slot := ios[k], s.slots[k + 1];
                 && a.i < |roles| && slot.role == roles[a.i] && slot.outcome == (if a.ok then Good else Bad)
                 && slot.sum == (if a.ok then digest(LastWritten(data, roles, ios[..k + 1])) else a.junk)
                 && slot.verdict == (if slot.role == WriterRole || StepsOf(acts, a.i) < 5 then NotPrinted
                                     else if slot.sum == s.slots[k].sum then Matched
                                     else Mismatch)
  {
    hide Run, StepsOf, IOs, LastWritten, Phases, OneSlotEach;
    RunBooks(roles, data, digest, acts, s);
    var ios := IOs(acts);
    forall k | 0 <= k < |ios| ensures SlotIs(s, acts, data, ios, k, digest) {}
  }

  // A successful write reports what it wrote; a successful read what was written last before it.
  lemma DigestsOfWrites(roles: seq<Role>, data: Data, digest: Data -> Digest, acts: seq<Act>, s: State, k: nat)
    requires Run(Init(roles, data, digest), acts, s, digest) && k < |IOs(acts)| && IOs(acts)[k].ok
    ensures k + 1 < |s.slots| && IOs(acts)[k].i < |roles|
    ensures s.slots[k + 1].sum ==
            digest(if roles[IOs(acts)[k].i] == WriterRole then IOs(acts)[k].data
                   else LastWritten(data, roles, IOs(acts)[..k]))
  {
    hide Run, StepsOf, IOs;
    Reports(roles, data, digest, acts, s);
    var ios := IOs(acts);
    assert ios[..k + 1] == ios[..k] + [ios[k]];
    LastWrittenSnoc(data, roles, ios[..k], ios[k], digest);
  }

  // Every run is over after six steps of every thread, and until then some thread can take one with
  // which it succeeds.
  lemma NeverStuck(roles: seq<Role>, data: Data, digest: Data -> Digest, acts: seq<Act>, s: State)
    requires Run(Init(roles, data, digest), acts, s, digest)
    ensures forall i :: 0 <= i < |s.pcs| ==> StepsOf(acts, i) <= 6
    ensures (forall i :: 0 <= i < |s.pcs| ==> s.pcs[i] == Exited) || exists a: Act :: a.ok && Enabled(s, a)
  {
    hide StepsOf, OneSlotEach, Books, Enough, Blank, LastIsCurrent, InLockOrder, RolesNoted, DigestOfContent, AllFollow;
    RunBooks(roles, data, digest, acts, s);
    InitInv(roles, data, digest);
    RunKeepsInv(Init(roles, data, digest), acts, s, digest);
    forall i | 0 <= i < |s.pcs| ensures StepsOf(acts, i) <= 6 {
      assert Phase(s.roles[i], s.pcs[i], StepsOf(acts, i));
    }
    if i :| 0 <= i < |s.pcs| && s.pcs[i] != Exited {
      var j := if s.holder.Some? then s.holder.value else i;
      assert Holds(s.pcs[j]) <==> s.holder == Some(j);
      assert Enabled(s, Act(j, true, 0, 0));
    }
  }
}
