// Moving objects to the pools their hotness asks for (hsm_move_one, hsm_move_objs): copy to a
// temporary object, delete the original, copy back under the original id, delete the temporary one.
// Any step may fail. A move never loses the content of its own object, but all share the temporary
// one.
module Migration {
  import opened Errors
  import opened Transfers
  import opened Paging
  import opened ObjRwArgs
  import opened ObjIo
  import opened MotrClient
  import opened ObjCopy
  import opened Words
  import opened Hotness

  // ----- object ids -----

  datatype Oid = Oid(u1: nat, u2: nat)

  // mio_cmd_obj_id_clone.
  function Clone(base: Oid, off1: nat, off2: nat): Oid {
    Oid((base.u1 + off1) % TWO_64, (base.u2 + off2) % TWO_64)
  }

  // hsm_make_oid and hsm_make_tmp_oid.
  function MakeOid(base: Oid, idx: nat): Oid { Clone(base, idx, 0) }

  function MakeTmpOid(base: Oid): Oid { Clone(base, 0, 0x1000) }

  // The index counts up from the low word of the first id; the temporary object is 0x1000 higher in
  // the other word.
  lemma OidsAre(base: Oid, idx: nat)
    requires base.u1 + idx < TWO_64 && base.u2 + 0x1000 < TWO_64
    ensures MakeOid(base, idx) == Oid(base.u1 + idx, base.u2) && MakeTmpOid(base) == Oid(base.u1, base.u2 + 0x1000)
  {}

  // The temporary object is none of the numbered ones.
  lemma TmpIsApart(base: Oid, idx: nat)
    ensures MakeOid(base, idx) != MakeTmpOid(base)
  {}

  lemma OidsDiffer(base: Oid, i: nat, j: nat)
    requires i < j < TWO_64
    ensures MakeOid(base, i) != MakeOid(base, j)
  {
    var a, b := base.u1 + i, base.u1 + j;
    assert a == (a / TWO_64) * TWO_64 + a % TWO_64 && b == (b / TWO_64) * TWO_64 + b % TWO_64;
  }

  // ----- what the objects hold -----

  datatype Entry = Entry(bytes: seq<byte>, pool: Option<int>)

  type Contents = map<Oid, Entry>

  // The object `id` starts with `c`; it holds just that.
  predicate Begins(m: Contents, id: Oid, c: seq<byte>) {
    id in m && c <= m[id].bytes
  }

  predicate Holds(m: Contents, id: Oid, c: seq<byte>) {
    id in m && m[id].bytes == c
  }

  function SizeIn(m: Contents, id: Oid): nat {
    if id in m then |m[id].bytes| else 0
  }

  // All objects but these two are as they were, and no others have appeared.
  ghost predicate OthersKept(m: Contents, m': Contents, id: Oid, tmp: Oid) {
    && (forall x :: x in m && x != id && x != tmp ==> x in m' && m'[x] == m[x])
    && (forall x :: x in m' ==> x in m || x == id || x == tmp)
  }

  // All objects of `m` hold what they held; all but one do.
  ghost predicate AllHold(m: Contents, m': Contents) {
    forall x :: x in m ==> Holds(m', x, m[x].bytes)
  }

  lemma MostHold(m: Contents, was: Contents, now: Contents, id: Oid, tmp: Oid)
    requires AllHold(m, was) && was.Keys == m.Keys && OthersKept(was, now, id, tmp) && tmp !in m
    ensures forall x :: x in m && x != id ==> Holds(now, x, m[x].bytes)
    ensures id in m ==> was[id].bytes == m[id].bytes
    ensures (id in m ==> Holds(now, id, was[id].bytes)) ==> AllHold(m, now)
  {}

  // The target starts with the source and is as large as the larger one of the two was.
  ghost predicate Copied(m: Contents, m': Contents, from: Oid, to: Oid)
    requires from in m' && to in m'
  {
    Begins(m', to, m'[from].bytes) && SizeIn(m', to) == LargerOf(SizeIn(m, to), SizeIn(m', from))
  }

  // The bytes of an object that has the given size.
  function Shown(data: seq<byte>, size: nat): (s: seq<byte>)
    ensures size <= |data| ==> |s| == size
  {
    if size <= |data| then data[..size] else data
  }

  // ----- the cluster -----

  class Cluster {
    const ps: nat
    const max: nat
    const capacity: nat
    const heap: Heap
    const motr: Motr
    const hot: nat          // thresholds
    const cold: nat
    const nrPools: nat
    const defaultPool: Option<int>
    var objs: map<Oid, MotrObject>
    var pools: map<Oid, Option<int>>

    constructor (ps: nat, max: nat, capacity: nat, heap: Heap, motr: Motr, hot: nat, cold: nat, nrPools: nat,
                 defaultPool: Option<int>)
      requires 0 < ps <= max && Aligned(max, ps) && Aligned(capacity, ps) && capacity < TWO_64
      requires 0 < nrPools < TWO_31 && hot < TWO_64 && Fits(hot, cold, nrPools)
      ensures Valid() && objs == map[]
    {
      this.ps, this.max, this.capacity, this.heap, this.motr := ps, max, capacity, heap, motr;
      this.hot, this.cold, this.nrPools, this.defaultPool := hot, cold, nrPools, defaultPool;
      objs, pools := map[], map[];
    }

    // One object as it should be.
    ghost predicate Sound(id: Oid)
      requires id in objs
      reads this, objs[id]
    {
      FitsIn(objs[id])
    }

    ghost predicate FitsIn(o: MotrObject)
      reads o
    {
      o.Valid() && o.ps == ps && o.max == max && o.size <= |o.data| == capacity
    }

    ghost predicate Apart()
      reads this
    {
      && objs.Keys == pools.Keys
      && forall a, b :: a in objs && b in objs && a != b ==> objs[a] != objs[b]
    }

    ghost predicate Configured() {
      && 0 < ps <= max && Aligned(max, ps) && Aligned(capacity, ps) && capacity < TWO_64
      && 0 < nrPools < TWO_31 && hot < TWO_64 && Fits(hot, cold, nrPools)
    }

    ghost predicate Valid()
      reads this, objs.Values
    {
      Configured() && Apart() && forall id :: id in objs ==> Sound(id)
    }

    ghost function View(): (m: Contents)
      requires Apart()
      reads this, objs.Values
    {
      map id | id in objs :: Entry(Shown(objs[id].data, objs[id].size), pools[id])
    }

    // No objects but new ones are taken in.
    twostate predicate NewOnly()
      reads this
    {
      forall o :: o in objs.Values ==> o in old(objs.Values) || fresh(o)
    }

    // The pool the hotness selects, and the pool an object is created in: hotness 0 is no hint.
    ghost predicate SelectedIn(p: Option<int>, hotness: nat) {
      p.Some? && Belongs(hotness, hot, cold, nrPools, p.value)
    }

    ghost predicate CreatedIn(p: Option<int>, hotness: nat) {
      if hotness == 0 then p == defaultPool else SelectedIn(p, hotness)
    }

    lemma SelectedIs(hotness: nat)
      requires Configured()
      ensures forall p :: p == PoolIdx(hotness, hot, cold, nrPools) <==> SelectedIn(p, hotness)
    {
      hide Belongs, PoolIdx;
      forall p ensures p == PoolIdx(hotness, hot, cold, nrPools) <==> SelectedIn(p, hotness) {
        PoolIdxBelongs(hotness, hot, cold, nrPools, if p.Some? then p.value else 0);
      }
    }

    // obj_pool_select and mio_obj_create: by hotness if that hint is set, or the default pool.
    function PoolFor(hotness: nat): (p: Option<int>)
      requires Configured()
      ensures CreatedIn(p, hotness) && (hotness > 0 ==> InRange(p, nrPools))
    {
      FitsIsInRange(hot, cold, nrPools, hotness);
      SelectedIs(hotness);
      if hotness > 0 then PoolIdx(hotness, hot, cold, nrPools) else defaultPool
    }

    // obj_open. Whether it fails for reasons of its own is up to Motr.
    method Open(id: Oid) returns (rc: int, o: MotrObject?)
      requires Apart()
      modifies motr
      ensures motr.carried == old(motr.carried) + 1
      ensures rc == if !motr.Succeeds(old(motr.carried)) then EIO else if id in View() then 0 else ENOENT
      ensures rc == 0 ==> id in objs && o == objs[id]
    {
      var f := motr.Wait();
      if f.rc < 0 {
        return EIO, null;
      }
      if id !in objs {
        return ENOENT, null;
      }
      return 0, objs[id];
    }

    // obj_open_or_create.
    method OpenOrCreate(id: Oid, pool: Option<int>) returns (rc: int)
      requires Valid()
      modifies `objs, `pools, motr
      ensures rc <= 0 && Valid() && NewOnly() && (rc == 0 ==> id in View())
      ensures motr.Went(old(motr.carried), motr.carried, rc)
      ensures View() == if rc < 0 || id in old(View()) then old(View()) else old(View())[id := Entry([], pool)]
    {
      hide View, Apart, Sound, Configured;
      var o;
      rc, o := Open(id);
      if rc != ENOENT {
        return;
      }
      var f := motr.Wait();
      if f.rc < 0 {
        assert !motr.Succeeds(motr.carried - 1);
        return f.rc;
      }
      Create(id, pool);
      return 0;
    }

    // An empty object more, and one less.
    method Create(id: Oid, pool: Option<int>)
      requires Valid() && id !in View()
      modifies `objs, `pools
      ensures Valid() && NewOnly() && View() == old(View())[id := Entry([], pool)]
    {
      hide MotrObject.Valid, Fits, Aligned, Shown;
      var n := new MotrObject(ps, max, capacity);
      Insert(id, n, pool);
    }

    method Insert(id: Oid, n: MotrObject, pool: Option<int>)
      requires Valid() && id !in objs && n !in objs.Values && FitsIn(n) && n.size == 0
      modifies `objs, `pools
      ensures Valid() && objs == old(objs)[id := n] && View() == old(View())[id := Entry([], pool)]
    {
      hide FitsIn, Configured;
      ghost var m := View();
      objs, pools := objs[id := n], pools[id := pool];
      ViewGrows(m, id, pool);
    }

    lemma ViewGrows(m: Contents, id: Oid, pool: Option<int>)
      requires Apart() && id in objs && objs[id].size == 0 && pools[id] == pool && id !in m && objs.Keys == m.Keys + {id}
      requires forall x :: x in m ==> m[x] == Entry(Shown(objs[x].data, objs[x].size), pools[x])
      ensures View() == m[id := Entry([], pool)]
    {}

    method Remove(id: Oid)
      requires Valid()
      modifies `objs, `pools
      ensures Valid() && NewOnly() && View() == old(View()) - {id}
    {
      hide MotrObject.Valid, Fits, Aligned, Shown;
      objs, pools := objs - {id}, pools - {id};
    }

    // obj_rm: the data may be gone although the last step, deleting the attributes, failed.
    method Unlink(id: Oid) returns (rc: int)
      requires Valid()
      modifies `objs, `pools, motr
      ensures rc <= 0 && Valid() && NewOnly()
      ensures var c := old(motr.carried);
              View() == if id in old(View()) && motr.Succeeds(c) && motr.Succeeds(c + 1) then old(View()) - {id} else old(View())
      ensures rc == 0 ==> id !in View()
      ensures old(motr.carried) < motr.carried
      ensures rc == 0 <==> id in old(View()) && motr.AllSucceed(old(motr.carried), motr.carried)
    {
      hide View, Apart, Sound, Configured;
      var o;
      rc, o := Open(id);
      if rc < 0 {
        return;
      }
      var f := motr.Wait();
      if f.rc < 0 {
        assert !motr.Succeeds(motr.carried - 1);
        return f.rc;
      }
      Remove(id);
      f := motr.Wait();
      rc := f.rc;
      assert motr.Succeeds(motr.carried - 1) <==> rc == 0;
    }

    // mio_cmd_obj_copy: the target holds the source's content, and keeps its own size if that is
    // larger; the source and all other objects are as before, even on failure.
    method CopyCmd(from: Oid, to: Oid, pool: Option<int>, bs: nat) returns (rc: int)
      requires Valid() && from != to && 0 < bs && (from in View() ==> View()[from].bytes != [] || bs == 1)
      modifies `objs, `pools, heap, motr, objs.Values
      ensures rc <= 0 && Apart() && NewOnly() && (rc == 0 ==> Valid())
      ensures old(motr.carried) < motr.carried
      ensures rc == 0 <==> from in old(View()) && motr.AllSucceed(old(motr.carried), motr.carried)
      ensures OthersKept(old(View()), View(), to, to)
      ensures rc == 0 ==>
                && from in View() && to in View() && Copied(old(View()), View(), from, to)
                && View()[to].pool == if to in old(View()) then old(View())[to].pool else pool
    {
      hide View, Apart, Sound, Configured;
      var f;
      rc, f := Open(from);
      if rc < 0 {
        return;
      }
      rc := OpenOrCreate(to, pool);
      if rc < 0 {
        return;
      }
      rc := CopyInto(from, to, bs);
    }

    // The copy itself, once both objects are there.
    method CopyInto(from: Oid, to: Oid, bs: nat) returns (rc: int)
      requires Valid() && from != to && 0 < bs && from in View() && to in View() && (View()[from].bytes != [] || bs == 1)
      modifies heap, motr, objs.Values
      ensures rc <= 0 && Apart() && (rc == 0 ==> Valid()) && motr.Went(old(motr.carried), motr.carried, rc)
      ensures OthersKept(old(View()), View(), to, to)
      ensures from in View() && to in View() && View()[to].pool == old(View())[to].pool
      ensures rc == 0 ==> Copied(old(View()), View(), from, to)
    {
      hide Agree, MotrObject.Valid, Fits, Aligned, Shown;
      rc := CopyObject(objs[from], objs[to], heap, motr, bs);
      motr.RanWent(old(motr.carried), motr.carried, rc);
      if rc == 0 {
        AgreeShows(objs[to].data, objs[from].data, objs[from].size, objs[to].size);
      }
    }

    // hsm_obj_hint_stat, for an object whose hotness is given.
    method HintStat(id: Oid) returns (rc: int)
      requires Apart()
      modifies motr
      ensures rc <= 0 && motr.carried == old(motr.carried) + 1
      ensures rc == 0 <==> id in View() && motr.Succeeds(old(motr.carried))
    {
      var o;
      rc, o := Open(id);
    }

    // hsm_obj_if_move: an error counts as a move.
    method StaysPut(id: Oid, hotness: nat) returns (stays: bool)
      requires Valid()
      modifies motr
      ensures motr.carried == old(motr.carried) + 1
      ensures stays <==> id in View() && motr.Succeeds(old(motr.carried)) && SelectedIn(View()[id].pool, hotness)
    {
      hide Belongs, Fits, PoolIdx, InRange;
      var rc, o := Open(id);
      SelectedIs(hotness);
      stays := rc == 0 && pools[id] == PoolIdx(hotness, hot, cold, nrPools);
    }

    // Steps 1 and 2 of hsm_move_one: the content is copied out, then the original deleted.
    method MoveOut(id: Oid, tmp: Oid, bs: nat, ghost c: seq<byte>) returns (rc: int)
      requires Valid() && id != tmp && 0 < bs && (c != [] || bs == 1) && Holds(View(), id, c)
      modifies `objs, `pools, heap, motr, objs.Values
      ensures rc <= 0 && Apart() && NewOnly() && OthersKept(old(View()), View(), id, tmp)
      ensures motr.Went(old(motr.carried), motr.carried, rc)
      ensures Begins(View(), id, c) || Begins(View(), tmp, c)
      ensures rc == 0 ==> Valid() && id !in View() && Begins(View(), tmp, c)
      ensures rc == 0 ==> SizeIn(View(), tmp) == LargerOf(SizeIn(old(View()), tmp), |c|)
    {
      hide View, Apart, Sound, Configured, Copied;
      ghost var m := View();
      rc := CopyCmd(id, tmp, None, bs);
      if rc < 0 {
        return;
      }
      CopiedBegins(m, View(), id, tmp, c);
      rc := Unlink(id);
    }

    // Steps 3 and 4: the content is copied back, then the temporary object deleted.
    method MoveBack(id: Oid, tmp: Oid, pool: Option<int>, bs: nat, ghost c: seq<byte>) returns (rc: int)
      requires Valid() && id != tmp && 0 < bs && id !in View() && (c != [] || bs == 1) && Begins(View(), tmp, c)
      modifies `objs, `pools, heap, motr, objs.Values
      ensures rc <= 0 && Apart() && NewOnly() && OthersKept(old(View()), View(), id, tmp)
      ensures motr.Went(old(motr.carried), motr.carried, rc)
      ensures Begins(View(), id, c) || Begins(View(), tmp, c)
      ensures rc == 0 ==> Valid() && tmp !in View() && Begins(View(), id, c)
      ensures rc == 0 ==> SizeIn(View(), id) == SizeIn(old(View()), tmp) && View()[id].pool == pool
    {
      hide View, Apart, Sound, Configured, Copied;
      ghost var m := View();
      rc := CopyCmd(tmp, id, pool, bs);
      if rc < 0 {
        return;
      }
      CopiedBegins(m, View(), tmp, id, c);
      rc := Unlink(tmp);
    }

    // hsm_move_one. Whatever fails, the original or the temporary object starts with the full
    // content. On success only the original exists, in the pool its hotness selects unless it was
    // there already; its size is unchanged exactly when no larger temporary object was in the way, and
    // no content at all is lost exactly when there was no temporary object before. It fails exactly when
    // an operation does, but for the second one, which asks for the pool: an error there counts as a move.
    method MoveOne(base: Oid, idx: nat, bs: nat, hotness: nat) returns (rc: int, ghost moved: bool)
      requires Valid() && 0 < bs && (MakeOid(base, idx) in View() ==> View()[MakeOid(base, idx)].bytes != [] || bs == 1)
      modifies `objs, `pools, heap, motr, objs.Values
      ensures rc <= 0 && Apart() && NewOnly() && (rc == 0 ==> Valid())
      ensures OthersKept(old(View()), View(), MakeOid(base, idx), MakeTmpOid(base))
      ensures var m, id, c0 := old(View()), MakeOid(base, idx), old(motr.carried);
              && c0 < motr.carried
              && (rc == 0 <==> id in m && motr.Succeeds(c0) && motr.AllSucceed(c0 + 2, motr.carried))
              && (id in m && motr.Succeeds(c0) ==> (!moved <==> motr.Succeeds(c0 + 1) && SelectedIn(m[id].pool, hotness)))
      ensures MakeOid(base, idx) !in old(View()) || (rc == 0 && !moved) ==> View() == old(View())
      ensures var m, id, tmp := old(View()), MakeOid(base, idx), MakeTmpOid(base);
              id in m ==>
                var c := m[id].bytes;
                && (Begins(View(), id, c) || Begins(View(), tmp, c))
                && (rc == 0 && moved ==>
                      && tmp !in View() && Begins(View(), id, c) && CreatedIn(View()[id].pool, hotness)
                      && SizeIn(View(), id) == LargerOf(SizeIn(m, tmp), |c|)
                      && (AllHold(m, View()) <==> tmp !in m))
    {
      hide View, Apart, PoolIdx, Belongs;
      var id, tmp := MakeOid(base, idx), MakeTmpOid(base);
      moved := false;
      rc := HintStat(id);
      if rc < 0 {
        return;
      }
      var stays := StaysPut(id, hotness);
      if stays {
        return;
      }
      moved := true;
      TmpIsApart(base, idx);
      ghost var c := View()[id].bytes;
      rc := MoveOut(id, tmp, bs, c);
      if rc < 0 {
        return;
      }
      var pool := PoolFor(hotness);
      rc := MoveBack(id, tmp, pool, bs, c);
    }

    // hsm_move_objs, for objects whose hotness is given. When no temporary object is left over from
    // before, no content is lost: every object holds what it held, except the one whose move failed,
    // whose content is in it or in the temporary object.
    method MoveObjs(base: Oid, nrObjs: nat, idx: nat, nr: nat, bs: nat, hotness: seq<nat>)
      returns (rc: int, ghost at: nat)
      requires Valid() && 0 < bs && nrObjs < TWO_31 && |hotness| == nrObjs
      requires MakeTmpOid(base) !in View() && forall x :: x in View() ==> View()[x].bytes != [] || bs == 1
      modifies `objs, `pools, heap, motr, objs.Values
      ensures rc <= 0 && Apart() && (idx >= nrObjs ==> rc == EINVAL && View() == old(View()))
      ensures forall x :: x in old(View()) ==>
                var c := old(View())[x].bytes;
                || Holds(View(), x, c)
                || (rc < 0 && idx <= at < nrObjs && x == MakeOid(base, at)
                    && (Begins(View(), x, c) || Begins(View(), MakeTmpOid(base), c)))
      ensures (&& idx < nrObjs && motr.AllSucceed(old(motr.carried), motr.carried)
               && forall i :: idx <= i < idx + nr && i < nrObjs ==> MakeOid(base, i) in old(View()))
              ==> rc == 0
      ensures rc == 0 ==>
                && Valid() && View().Keys == old(View()).Keys
                && forall i :: idx <= i < idx + nr && i < nrObjs ==> InItsPool(View(), MakeOid(base, i), hotness[i])
    {
      hide View, Apart, Sound, Fits, InItsPool;
      if idx >= nrObjs {
        return EINVAL, 0;
      }
      var n := if idx + nr > nrObjs then nrObjs - idx else nr;
      rc, at := 0, idx;
      ghost var m := View();
      for i := 0 to n
        invariant rc == 0 && Valid() && Apart() && NewOnly() && old(motr.carried) <= motr.carried
        invariant AllHold(m, View()) && View().Keys == m.Keys
        invariant forall j :: idx <= j < idx + i ==> InItsPool(View(), MakeOid(base, j), hotness[j])
      {
        at := idx + i;
        ghost var was := View();
        rc := MoveApart(base, idx + i, bs, hotness[idx + i]);
        MostHold(m, was, View(), MakeOid(base, at), MakeTmpOid(base));
        if rc < 0 {
          break;
        }
        forall j | idx <= j < at ensures InItsPool(View(), MakeOid(base, j), hotness[j]) {
          OidsDiffer(base, j, at);
          StaysInPool(was, View(), MakeOid(base, j), MakeOid(base, at), MakeTmpOid(base), hotness[j]);
        }
      }
    }

    // A move when there is no temporary object yet.
    method MoveApart(base: Oid, idx: nat, bs: nat, hotness: nat) returns (rc: int)
      requires Valid() && 0 < bs && MakeTmpOid(base) !in View() && forall x :: x in View() ==> View()[x].bytes != [] || bs == 1
      modifies `objs, `pools, heap, motr, objs.Values
      ensures rc <= 0 && Apart() && NewOnly()
      ensures var m, id, tmp := old(View()), MakeOid(base, idx), MakeTmpOid(base);
              && OthersKept(m, View(), id, tmp)
              && (id in m ==>
                    var c := m[id].bytes;
                    if rc == 0 then Holds(View(), id, c) else Begins(View(), id, c) || Begins(View(), tmp, c))
              && (rc == 0 ==> Valid() && View().Keys == m.Keys && InItsPool(View(), id, hotness))
      ensures old(motr.carried) < motr.carried
      ensures MakeOid(base, idx) in old(View()) && motr.AllSucceed(old(motr.carried), motr.carried) ==> rc == 0
    {
      hide View, Apart, Belongs;
      ghost var moved;
      rc, moved := MoveOne(base, idx, bs, hotness);
    }

    // In the pool its hotness selects or, when that is 0, in the default pool.
    ghost predicate InItsPool(m: Contents, id: Oid, hotness: nat) {
      id in m && (SelectedIn(m[id].pool, hotness) || (hotness == 0 && m[id].pool == defaultPool))
    }

    lemma StaysInPool(was: Contents, now: Contents, x: Oid, id: Oid, tmp: Oid, hotness: nat)
      requires Configured() && OthersKept(was, now, id, tmp) && x != id && tmp !in was && InItsPool(was, x, hotness)
      ensures InItsPool(now, x, hotness)
    {}

    // All objects share one temporary object. When the only copy of an object is in there, because
    // its own move failed on the way back, a successful move of another object deletes it.
    method MoveAfterFailedMove(base: Oid, lost: nat, idx: nat, bs: nat, hotness: nat) returns (rc: int, ghost moved: bool)
      requires Valid() && 0 < bs && (MakeOid(base, idx) in View() ==> View()[MakeOid(base, idx)].bytes != [] || bs == 1)
      requires MakeOid(base, lost) !in View() && MakeTmpOid(base) in View()
      modifies `objs, `pools, heap, motr, objs.Values
      ensures Apart() && (rc == 0 && moved ==> MakeOid(base, lost) !in View() && MakeTmpOid(base) !in View())
    {
      TmpIsApart(base, lost);
      rc, moved := MoveOne(base, idx, bs, hotness);
    }
  }

  lemma CopiedBegins(m: Contents, m': Contents, from: Oid, to: Oid, c: seq<byte>)
    requires from in m' && to in m' && Copied(m, m', from, to) && Begins(m', from, c)
    ensures Begins(m', to, c) && SizeIn(m', to) == LargerOf(SizeIn(m, to), SizeIn(m', from))
  {}

  lemma AgreeShows(to: seq<byte>, from: seq<byte>, n: nat, size: nat)
    requires Agree(to, from, n) && n <= size <= |to|
    ensures Shown(from, n) <= Shown(to, size)
  {}
}
