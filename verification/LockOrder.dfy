// Writers and readers of one object under its exclusive lock, reporting into numbered slots
// (examples/mio_rw_lock.c), as a transition system over any interleaving. The area they all write
// and read is one value; `digest` stands for MD5.
module LockOrder {
  import opened Errors

  type Data = nat
  type Digest = nat

  datatype Role = WriterRole | ReaderRole

  // A slot of the report (struct rwl_io): who took it, how its I/O ended, its digest, and what a
  // reader printed.
  datatype Outcome = Pending | Good | Bad
  datatype Slot = Slot(role: Role, outcome: Outcome, sum: Digest, verdict: Verdict)
  datatype Verdict = NotPrinted | Matched | Mismatch

  datatype Pc =
    | Opening
    | Locking
    | Taking            // holds the object lock, about to take a slot
    | InIO(slot: nat)
    | Printing(slot: nat)
    | Unlocking
    | Exited

  datatype State = State(
    holder: Option<nat>,   // who holds the object lock
    slots: seq<Slot>,
    nrDone: nat,           // the next slot
    content: Data,
    roles: seq<Role>,      // of the threads
    pcs: seq<Pc>,
    locked: seq<nat>,      // threads in the order they got the object lock
    owners: seq<nat>)      // threads in the order of their slots

  predicate Holds(pc: Pc) { pc.Taking? || pc.InIO? || pc.Printing? || pc.Unlocking? }

  // `ok`: opening, locking or the I/O succeeds. `data`: what a writer writes, or what a failed
  // write leaves; `junk`: the digest of a failed I/O.
  datatype Act = Act(i: nat, ok: bool, data: Data, junk: Digest)

  predicate Enabled(s: State, a: Act) {
    a.i < |s.pcs| == |s.roles| && s.pcs[a.i] != Exited
    && (s.pcs[a.i] == Locking && a.ok ==> s.holder == None)
  }

  // Slots and cursors are in range.
  predicate InBounds(s: State) {
    && s.nrDone <= |s.slots|
    && forall i :: 0 <= i < |s.pcs| ==>
         match s.pcs[i]
         case InIO(k) => k < |s.slots|
         case Printing(k) => k < |s.slots|
         case Taking => s.nrDone < |s.slots|
         case _ => true
  }

  // The report of the I/O in slot `k`.
  function Finish(s: State, a: Act, k: nat, digest: Data -> Digest): State
    requires k < |s.slots| && a.i < |s.pcs| == |s.roles|
  {
    var content := if s.roles[a.i] == WriterRole then a.data else s.content;
    var slot := s.slots[k].(outcome := if a.ok then Good else Bad, sum := if a.ok then digest(content) else a.junk);
    s.(content := content, slots := s.slots[k := slot],
       pcs := s.pcs[a.i := if s.roles[a.i] == WriterRole && !a.ok then Unlocking else Printing(k)])
  }

  // rwl_print_io: a reader compares its digest with the one in the slot before.
  function Compare(s: State, k: nat): Verdict
    requires k < |s.slots|
  {
    if k == 0 || s.slots[k].sum == s.slots[k - 1].sum then Matched else Mismatch
  }

  // rwl_obj_write and rwl_obj_read.
  function Next(s: State, a: Act, digest: Data -> Digest): State
    requires Enabled(s, a) && InBounds(s)
  {
    var i := a.i;
    match s.pcs[i]
    case Opening => s.(pcs := s.pcs[i := if a.ok then Locking else Exited])
    case Locking =>
      if a.ok then s.(holder := Some(i), locked := s.locked + [i], pcs := s.pcs[i := Taking])
      else s.(pcs := s.pcs[i := Exited])
    case Taking =>
      var k := s.nrDone;
      s.(slots := s.slots[k := s.slots[k].(role := s.roles[i])], nrDone := k + 1, owners := s.owners + [i],
         pcs := s.pcs[i := InIO(k)])
    case InIO(k) => Finish(s, a, k, digest)
    case Printing(k) =>
      var slot := if s.roles[i] == WriterRole then s.slots[k] else s.slots[k].(verdict := Compare(s, k));
      s.(slots := s.slots[k := slot], pcs := s.pcs[i := Unlocking])
    case Unlocking => s.(holder := None, pcs := s.pcs[i := Exited])
    case Exited => s
  }

  // ----- what every step keeps -----

  // The object lock is held by exactly the thread between lock and unlock.
  ghost predicate Exclusive(s: State) {
    && |s.roles| == |s.pcs|
    && (s.holder.Some? ==> s.holder.value < |s.pcs|)
    && forall i :: 0 <= i < |s.pcs| ==> (Holds(s.pcs[i]) <==> s.holder == Some(i))
  }

  // Threads that may still take a slot.
  function ToCome(pcs: seq<Pc>): nat {
    if pcs == [] then 0
    else (if pcs[0].Opening? || pcs[0].Locking? || pcs[0].Taking? then 1 else 0) + ToCome(pcs[1..])
  }

  lemma {:induction false} ToComeUpdate(pcs: seq<Pc>, i: nat, pc: Pc)
    requires i < |pcs|
    ensures ToCome(pcs[i := pc]) + (if pcs[i].Opening? || pcs[i].Locking? || pcs[i].Taking? then 1 else 0)
            == ToCome(pcs) + if pc.Opening? || pc.Locking? || pc.Taking? then 1 else 0
  {
    if i > 0 {
      ToComeUpdate(pcs[1..], i - 1, pc);
      assert pcs[i := pc][1..] == pcs[1..][i - 1 := pc];
    } else {
      assert pcs[0 := pc][1..] == pcs[1..];
    }
  }

  lemma {:induction false} ToComeAtLeastOne(pcs: seq<Pc>, i: nat)
    requires i < |pcs| && (pcs[i].Opening? || pcs[i].Locking? || pcs[i].Taking?)
    ensures ToCome(pcs) > 0
  {
    if i > 0 {
      ToComeAtLeastOne(pcs[1..], i - 1);
    }
  }

  // There is a slot for every thread.
  ghost predicate Enough(s: State) {
    s.nrDone + ToCome(s.pcs) <= |s.slots|
  }

  // Slots not taken yet are blank, and nothing is printed before the I/O has ended.
  ghost predicate Blank(s: State) {
    && (forall k :: s.nrDone <= k < |s.slots| ==> s.slots[k].outcome == Pending)
    && (forall k :: 0 <= k < |s.slots| && s.slots[k].outcome == Pending ==> s.slots[k].verdict == NotPrinted)
  }

  predicate WorksOn(pc: Pc, k: int) {
    (pc.InIO? ==> pc.slot == k) && (pc.Printing? ==> pc.slot == k)
  }

  // The thread that works on a slot works on the last one taken, and only that one is unfinished.
  ghost predicate LastIsCurrent(s: State) {
    && 0 < s.nrDone <= |s.slots|
    && (forall i :: 0 <= i < |s.pcs| ==> WorksOn(s.pcs[i], s.nrDone - 1))
    && (forall k :: 0 <= k < s.nrDone && s.slots[k].outcome == Pending ==> k == s.nrDone - 1)
    && (s.slots[s.nrDone - 1].outcome == Pending <==>
          s.holder.Some? && s.holder.value < |s.pcs| && s.pcs[s.holder.value].InIO?)
    && s.slots[0].outcome != Pending
  }

  // Slots are handed out in the order of the object lock; the first one is the main thread's.
  ghost predicate InLockOrder(s: State) {
    && |s.owners| + 1 == s.nrDone
    && s.locked == s.owners
       + if s.holder.Some? && s.holder.value < |s.pcs| && s.pcs[s.holder.value] == Taking then [s.holder.value] else []
  }

  // The last finished slot.
  function LastFinished(s: State): int
    requires 0 < s.nrDone <= |s.slots|
  {
    if s.slots[s.nrDone - 1].outcome == Pending then s.nrDone - 2 else s.nrDone - 1
  }

  // If its I/O succeeded, it has the digest of what is in the object.
  ghost predicate DigestOfContent(s: State, digest: Data -> Digest)
    requires 0 < s.nrDone <= |s.slots|
  {
    var k := LastFinished(s);
    k >= 0 && s.slots[k].outcome == Good ==> s.slots[k].sum == digest(s.content)
  }

  // A successful read after a successful I/O has the digest of the slot before it.
  predicate Follows(slots: seq<Slot>, k: nat)
    requires k < |slots|
  {
    k > 0 && slots[k].outcome == Good && slots[k].role == ReaderRole && slots[k - 1].outcome == Good ==>
      slots[k].sum == slots[k - 1].sum && slots[k].verdict != Mismatch
  }

  ghost predicate AllFollow(s: State)
    requires s.nrDone <= |s.slots|
  {
    forall k :: 0 <= k < s.nrDone ==> Follows(s.slots, k)
  }

  // The role in a slot is its owner's.
  ghost predicate RolesNoted(s: State) {
    && |s.owners| + 1 == s.nrDone <= |s.slots| && |s.roles| == |s.pcs|
    && (forall k :: 0 <= k < |s.owners| ==>
          s.owners[k] < |s.roles| && s.slots[k + 1].role == s.roles[s.owners[k]])
    && (s.holder.Some? && s.holder.value < |s.pcs| && (s.pcs[s.holder.value].InIO? || s.pcs[s.holder.value].Printing?) ==>
          s.owners != [] && s.owners[|s.owners| - 1] == s.holder.value)
  }

  ghost predicate Inv(s: State, digest: Data -> Digest) {
    && Exclusive(s) && Enough(s) && Blank(s) && LastIsCurrent(s) && InLockOrder(s) && RolesNoted(s)
    && DigestOfContent(s, digest) && AllFollow(s)
  }

  lemma InvInBounds(s: State, digest: Data -> Digest)
    requires Inv(s, digest)
    ensures InBounds(s)
  {
    forall i | 0 <= i < |s.pcs|
      ensures match s.pcs[i]
              case InIO(k) => k < |s.slots|
              case Printing(k) => k < |s.slots|
              case Taking => s.nrDone < |s.slots|
              case _ => true
    {
      assert WorksOn(s.pcs[i], s.nrDone - 1);
      if s.pcs[i].Taking? {
        ToComeAtLeastOne(s.pcs, i);
      }
    }
  }

  // ----- part by part -----

  lemma KeepsExclusive(s: State, a: Act, digest: Data -> Digest)
    requires Exclusive(s) && Enabled(s, a) && InBounds(s)
    ensures Exclusive(Next(s, a, digest))
  {}

  lemma KeepsEnough(s: State, a: Act, digest: Data -> Digest)
    requires Enough(s) && Enabled(s, a) && InBounds(s)
    ensures Enough(Next(s, a, digest))
  {
    hide ToCome;
    var t := Next(s, a, digest);
    ToComeUpdate(s.pcs, a.i, t.pcs[a.i]);
  }

  lemma KeepsBlank(s: State, a: Act, digest: Data -> Digest)
    requires Inv(s, digest) && Enabled(s, a) && InBounds(s)
    ensures Blank(Next(s, a, digest))
  {}

  lemma KeepsLastIsCurrent(s: State, a: Act, digest: Data -> Digest)
    requires Exclusive(s) && Blank(s) && LastIsCurrent(s) && Enabled(s, a) && InBounds(s)
    ensures LastIsCurrent(Next(s, a, digest))
  {
    assert WorksOn(s.pcs[a.i], s.nrDone - 1);
    assert Holds(s.pcs[a.i]) <==> s.holder == Some(a.i);
  }

  lemma KeepsInLockOrder(s: State, a: Act, digest: Data -> Digest)
    requires Exclusive(s) && InLockOrder(s) && Enabled(s, a) && InBounds(s)
    ensures InLockOrder(Next(s, a, digest))
  {}

  lemma KeepsRolesNoted(s: State, a: Act, digest: Data -> Digest)
    requires Exclusive(s) && LastIsCurrent(s) && RolesNoted(s) && Enabled(s, a) && InBounds(s)
    ensures RolesNoted(Next(s, a, digest))
  {
    assert WorksOn(s.pcs[a.i], s.nrDone - 1);
    assert Holds(s.pcs[a.i]) <==> s.holder == Some(a.i);
  }

  lemma KeepsDigest(s: State, a: Act, digest: Data -> Digest)
    requires Inv(s, digest) && Enabled(s, a) && InBounds(s) && LastIsCurrent(Next(s, a, digest))
    ensures DigestOfContent(Next(s, a, digest), digest) && AllFollow(Next(s, a, digest))
  {
    assert WorksOn(s.pcs[a.i], s.nrDone - 1);
    assert Holds(s.pcs[a.i]) <==> s.holder == Some(a.i);
    var t := Next(s, a, digest);
    if s.pcs[a.i].InIO? {
      assert s.slots[s.nrDone - 1].role == s.roles[a.i] by { assert s.owners[|s.owners| - 1] == a.i; }
    }
    forall k | 0 <= k < t.nrDone ensures Follows(t.slots, k) {
      assert k < s.nrDone ==> Follows(s.slots, k);
    }
  }

  lemma KeepsInv(s: State, a: Act, digest: Data -> Digest)
    requires Inv(s, digest) && Enabled(s, a) && InBounds(s)
    ensures Inv(Next(s, a, digest), digest)
  {
    hide Next, Enabled, InBounds;
    KeepsExclusive(s, a, digest);
    KeepsEnough(s, a, digest);
    KeepsBlank(s, a, digest);
    KeepsLastIsCurrent(s, a, digest);
    KeepsInLockOrder(s, a, digest);
    KeepsRolesNoted(s, a, digest);
    KeepsDigest(s, a, digest);
  }

  // ----- whole runs -----

  // mio_rwl_start, once the main thread has written the object: one slot for it and one for
  // every thread.
  function Init(roles: seq<Role>, data: Data, digest: Data -> Digest): State {
    State(None, [Slot(WriterRole, Good, digest(data), NotPrinted)] + seq(|roles|, _ => Slot(WriterRole, Pending, 0, NotPrinted)),
          1, data, roles, seq(|roles|, _ => Opening), [], [])
  }

  ghost predicate Run(s: State, acts: seq<Act>, t: State, digest: Data -> Digest)
    decreases |acts|
  {
    if acts == [] then s == t
    else Enabled(s, acts[0]) && InBounds(s) && Run(Next(s, acts[0], digest), acts[1..], t, digest)
  }

  lemma {:induction false} AllToCome(n: nat)
    ensures ToCome(seq(n, _ => Opening)) == n
  {
    if n > 0 {
      AllToCome(n - 1);
      assert seq(n, _ => Opening)[1..] == seq(n - 1, _ => Opening);
    }
  }

  lemma InitInv(roles: seq<Role>, data: Data, digest: Data -> Digest)
    ensures Inv(Init(roles, data, digest), digest)
  {
    AllToCome(|roles|);
  }

  lemma {:induction false} RunKeepsInv(s: State, acts: seq<Act>, t: State, digest: Data -> Digest)
    requires Inv(s, digest) && Run(s, acts, t, digest)
    ensures Inv(t, digest)
    decreases |acts|
  {
    hide Inv, Next, Enabled, InBounds;
    if acts != [] {
      KeepsInv(s, acts[0], digest);
      RunKeepsInv(Next(s, acts[0], digest), acts[1..], t, digest);
    }
  }

  // In every interleaving: no slot past the last one is asked for, slots are handed out once each
  // in the order of the object lock, and no reader whose I/O and whose predecessor's I/O succeeded
  // reports a mismatch.
  lemma NoFalseMismatch(roles: seq<Role>, data: Data, digest: Data -> Digest, acts: seq<Act>, s: State)
    requires Run(Init(roles, data, digest), acts, s, digest)
    ensures InBounds(s) && |s.owners| + 1 == s.nrDone <= |s.slots|
    ensures s.owners <= s.locked && |s.locked| <= |s.owners| + 1
    ensures forall k :: 0 <= k < |s.owners| ==>
              s.owners[k] < |s.roles| && s.slots[k + 1].role == s.roles[s.owners[k]]
    ensures forall k :: 0 < k < s.nrDone && s.slots[k].role == ReaderRole
                        && s.slots[k].outcome == Good && s.slots[k - 1].outcome == Good ==>
              s.slots[k].sum == s.slots[k - 1].sum && s.slots[k].verdict != Mismatch
  {
    hide Inv, Next;
    InitInv(roles, data, digest);
    RunKeepsInv(Init(roles, data, digest), acts, s, digest);
    InvInBounds(s, digest);
    InvReports(s, digest);
  }

  lemma InvReports(s: State, digest: Data -> Digest)
    requires Inv(s, digest)
    ensures |s.owners| + 1 == s.nrDone <= |s.slots| && s.owners <= s.locked && |s.locked| <= |s.owners| + 1
    ensures forall k :: 0 <= k < |s.owners| ==>
              s.owners[k] < |s.roles| && s.slots[k + 1].role == s.roles[s.owners[k]]
    ensures forall k :: 0 < k < s.nrDone && s.slots[k].role == ReaderRole
                        && s.slots[k].outcome == Good && s.slots[k - 1].outcome == Good ==>
              s.slots[k].sum == s.slots[k - 1].sum && s.slots[k].verdict != Mismatch
  {
    hide Exclusive, Enough, Blank, DigestOfContent;
    forall k | 0 < k < s.nrDone && s.slots[k].role == ReaderRole
               && s.slots[k].outcome == Good && s.slots[k - 1].outcome == Good
      ensures s.slots[k].sum == s.slots[k - 1].sum && s.slots[k].verdict != Mismatch
    {
      assert Follows(s.slots, k);
    }
  }

  // Once taken and finished, a slot's digest stays.
  lemma DigestsStay(s: State, a: Act, digest: Data -> Digest, k: nat)
    requires Inv(s, digest) && Enabled(s, a) && InBounds(s)
    requires k < |s.slots| && s.slots[k].outcome != Pending
    ensures Next(s, a, digest).slots[k].sum == s.slots[k].sum && Next(s, a, digest).slots[k].outcome == s.slots[k].outcome
  {}
}
