// Hints of an object: a map kept in two parallel arrays, and its persistent part, which is stored
// with the object's size and statistics in the metadata key-value set (src/hints.c,
// motr_obj_attrs_mem2wire and motr_obj_attrs_wire2mem).
module Hints {
  import opened Errors
  import opened Transfers
  import opened Paging
  import opened Words

  const OBJ_HINT_NUM := 32
  const HINT_INVALID := -1
  const OBJ_LIFETIME := 0
  const OBJ_WHERE := 1
  const OBJ_HOT_INDEX := 2

  datatype HintType = Session | Persistent | Unknown

  // mio_hint_type, for the hints of an object.
  function ObjHintType(key: int): HintType {
    if key == OBJ_LIFETIME || key == OBJ_HOT_INDEX then Persistent
    else if key == OBJ_WHERE then Session
    else Unknown
  }

  // ----- parallel arrays as a map -----

  ghost predicate AllDistinct(k: seq<int>) {
    forall i, j :: 0 <= i < j < |k| ==> k[i] != k[j]
  }

  ghost function MapOf(k: seq<int>, v: seq<nat>): (m: map<int, nat>)
    requires |k| == |v| && AllDistinct(k)
    ensures forall i :: 0 <= i < |k| ==> k[i] in m && m[k[i]] == v[i]
    ensures forall x :: x in m <==> x in k
  {
    map i | 0 <= i < |k| :: k[i] := v[i]
  }

  ghost function KeySet(k: seq<int>): set<int> {
    set x | x in k
  }

  lemma {:induction false} KeySetSize(k: seq<int>)
    requires AllDistinct(k)
    ensures |KeySet(k)| == |k|
  {
    if k != [] {
      var n := |k| - 1;
      KeySetSize(k[..n]);
      assert k[n] !in k[..n];
      assert KeySet(k) == KeySet(k[..n]) + {k[n]};
    }
  }

  lemma KeysAre(k: seq<int>, v: seq<nat>)
    requires |k| == |v| && AllDistinct(k)
    ensures MapOf(k, v).Keys == KeySet(k) && KeySet(k[..0]) == {}
  {}

  lemma MapSize(k: seq<int>, v: seq<nat>)
    requires |k| == |v| && AllDistinct(k)
    ensures |MapOf(k, v).Keys| == |k|
  {
    KeySetSize(k);
    assert MapOf(k, v).Keys == KeySet(k);
  }

  lemma FirstKey(k: seq<int>, v: seq<nat>)
    requires |k| == |v| && AllDistinct(k)
    ensures k != [] ==> k[0] in MapOf(k, v)
  {}

  lemma MapAppend(k: seq<int>, v: seq<nat>, x: int, y: nat)
    requires |k| == |v| && AllDistinct(k) && x !in k
    ensures AllDistinct(k + [x]) && MapOf(k + [x], v + [y]) == MapOf(k, v)[x := y]
  {}

  lemma MapUpdate(k: seq<int>, v: seq<nat>, i: nat, y: nat)
    requires |k| == |v| && AllDistinct(k) && i < |k|
    ensures MapOf(k, v[i := y]) == MapOf(k, v)[k[i] := y]
  {}

  // struct mio_hint_map.
  class HintMap {
    var keys: array<int>
    var values: array<nat>
    var nrEntries: nat
    var nrSet: nat

    ghost predicate Valid()
      reads this, keys
    {
      keys.Length == values.Length == nrEntries && nrSet <= nrEntries && AllDistinct(keys[..nrSet])
    }

    ghost function Contents(): (m: map<int, nat>)
      requires Valid()
      reads this, keys, values
    {
      MapOf(keys[..nrSet], values[..nrSet])
    }

    // A map not initialised yet.
    constructor ()
      ensures Valid() && nrEntries == 0 && Contents() == map[] && fresh(keys) && fresh(values)
    {
      keys := new int[0];
      values := new nat[0];
      nrEntries, nrSet := 0, 0;
    }

    // mio_hint_map_init.
    method Init(n: nat)
      modifies this
      ensures Valid() && nrEntries == n && nrSet == 0 && Contents() == map[] && fresh(keys) && fresh(values)
    {
      keys := new int[n](_ => HINT_INVALID);
      values := new nat[n](_ => 0);
      nrEntries, nrSet := n, 0;
    }

    // The position of a key, or the number of keys.
    method Find(key: int) returns (i: nat)
      requires Valid()
      ensures i <= nrSet && (i < nrSet ==> keys[i] == key) && (i == nrSet <==> key !in Contents())
    {
      i := 0;
      while i < nrSet
        invariant i <= nrSet && key !in keys[..i]
      {
        if keys[i] == key {
          break;
        }
        i := i + 1;
      }
    }

    // Storing at the position Find returned, growing the map at its end.
    method Store(i: nat, key: int, value: nat)
      requires Valid() && i <= nrSet && i < nrEntries
      requires if i == nrSet then key !in Contents() else keys[i] == key
      modifies this`nrSet, keys, values
      ensures Valid() && Contents() == old(Contents())[key := value]
      ensures nrSet == if i == old(nrSet) then old(nrSet) + 1 else old(nrSet)
    {
      hide MapOf, AllDistinct;
      ghost var k, v := keys[..nrSet], values[..nrSet];
      if i == nrSet {
        MapAppend(k, v, key, value);
        nrSet := nrSet + 1;
      } else {
        MapUpdate(k, v, i, value);
      }
      keys[i] := key;
      values[i] := value;
      assert keys[..nrSet] == if i == |k| then k + [key] else k;
      assert values[..nrSet] == if i == |k| then v + [value] else v[i := value];
    }

    // mio_hint_map_set: an error, and nothing changed, when the key is new and the map is full.
    method Set(key: int, value: nat) returns (rc: int)
      requires Valid()
      modifies this`nrSet, keys, values
      ensures Valid()
      ensures rc == if key !in old(Contents()) && |old(Contents()).Keys| == nrEntries then EINVAL else 0
      ensures Contents() == if rc < 0 then old(Contents()) else old(Contents())[key := value]
    {
      MapSize(keys[..nrSet], values[..nrSet]);
      var i := Find(key);
      if i == nrSet && nrSet == nrEntries {
        return EINVAL;
      }
      Store(i, key, value);
      return 0;
    }

    // mio_hint_map_get.
    method Get(key: int) returns (rc: int, value: nat)
      requires Valid()
      ensures rc == if key in Contents() then 0 else ENOENT
      ensures rc == 0 ==> value == Contents()[key]
    {
      var i := Find(key);
      if i == nrSet {
        return ENOENT, 0;
      }
      return 0, values[i];
    }

    // How many keys of the first `n` of another map this one has not.
    method CountNew(from: HintMap) returns (nrNew: nat)
      requires Valid() && from.Valid()
      ensures nrNew == Missing(from.Contents().Keys, Contents().Keys)
    {
      hide MapOf, AllDistinct, Contents, KeySet, NewCount, Missing;
      from.ContentsIs();
      nrNew := 0;
      ghost var mine, k := Contents().Keys, from.keys[..from.nrSet];
      KeysAre(k, from.values[..from.nrSet]);
      NewCountEnds(k, mine);
      for i := 0 to from.nrSet
        invariant nrNew == NewCount(k, mine, i)
      {
        NewKey(k, i, mine);
        var j := Find(from.keys[i]);
        if j == nrSet {
          nrNew := nrNew + 1;
        }
      }
    }

    lemma ContentsIs()
      requires Valid()
      ensures Contents() == MapOf(keys[..nrSet], values[..nrSet])
      ensures nrEntries == 0 ==> Contents() == map[]
      ensures keys.Length == values.Length == nrEntries && nrSet <= nrEntries && AllDistinct(keys[..nrSet])
    {}

    lemma NoneSet()
      requires Valid() && Contents() == map[]
      ensures nrSet == 0
    {
      FirstKey(keys[..nrSet], values[..nrSet]);
    }

    lemma SizeIs()
      requires Valid()
      ensures |Contents().Keys| == nrSet
    {
      MapSize(keys[..nrSet], values[..nrSet]);
    }

    // mio_hint_map_copy: the two maps merged, the copied one winning; or an error, and nothing
    // changed, when that is more than fits.
    method CopyFrom(from: HintMap) returns (rc: int)
      requires Valid() && from.Valid() && (nrEntries > 0 || from.nrEntries > 0)
      requires from != this && from.keys != keys && from.values != values
      modifies this, keys, values
      ensures Valid() && from.Valid() && from.Contents() == old(from.Contents())
      ensures nrEntries == if old(nrEntries) == 0 then from.nrEntries else old(nrEntries)
      ensures rc == if Together(old(Contents()).Keys, from.Contents().Keys) > nrEntries then E2BIG else 0
      ensures Contents() == if rc < 0 then old(Contents()) else old(Contents()) + from.Contents()
    {
      hide MapOf, AllDistinct, Contents, Missing, Together;
      ContentsIs();
      if nrEntries == 0 {
        Init(from.nrEntries);
      }
      ghost var start := Contents();
      var nrNew := CountNew(from);
      SizeIs();
      MergedSize(start.Keys, from.Contents().Keys);
      if nrSet + nrNew > nrEntries {
        return E2BIG;
      }
      Merge(from);
      return 0;
    }

    // Adding the hints of another map one by one, once they are known to fit.
    method Merge(from: HintMap)
      requires Valid() && from.Valid() && from != this && from.keys != keys && from.values != values
      requires Together(Contents().Keys, from.Contents().Keys) <= nrEntries
      modifies this`nrSet, keys, values
      ensures Valid() && from.Valid() && from.Contents() == old(from.Contents())
      ensures Contents() == old(Contents()) + from.Contents()
    {
      hide MapOf, AllDistinct, Merged, Contents, Together, HasRoom, Valid;
      from.ContentsIs();
      ghost var start, fk, fv := Contents(), from.keys[..from.nrSet], from.values[..from.nrSet];
      MergeEnds(start, fk, fv);
      for i := 0 to from.nrSet
        invariant Valid() && Contents() == Merged(start, fk, fv, i)
      {
        NextMerged(start, fk, fv, i, nrEntries);
        Add(from.keys[i], from.values[i]);
      }
    }

    // Adding one hint, when there is room for it.
    method Add(key: int, value: nat)
      requires Valid() && HasRoom(Contents(), key, nrEntries)
      modifies this`nrSet, keys, values
      ensures Valid() && Contents() == old(Contents())[key := value]
    {
      hide MapOf, AllDistinct, Contents;
      SizeIs();
      var i := Find(key);
      Store(i, key, value);
    }

    // A persistent hint put after the last one, any other one skipped.
    method AppendPersistent(key: int, value: nat)
      requires Valid() && nrSet < nrEntries && (ObjHintType(key) == Persistent ==> key !in Contents())
      modifies this`nrSet, keys, values
      ensures Valid() && nrSet <= old(nrSet) + 1
      ensures Contents() == if ObjHintType(key) == Persistent then old(Contents())[key := value] else old(Contents())
    {
      hide MapOf, AllDistinct, Contents;
      if ObjHintType(key) == Persistent {
        Store(nrSet, key, value);
      }
    }
  }

  // The first `i` hints of a map merged into `start`.
  ghost function Merged(start: map<int, nat>, k: seq<int>, v: seq<nat>, i: nat): map<int, nat>
    requires |k| == |v| && AllDistinct(k) && i <= |k|
  {
    start + MapOf(k[..i], v[..i])
  }

  lemma MergeEnds(start: map<int, nat>, k: seq<int>, v: seq<nat>)
    requires |k| == |v| && AllDistinct(k)
    ensures Merged(start, k, v, 0) == start && Merged(start, k, v, |k|) == start + MapOf(k, v)
  {}

  lemma MergedSize(a: set<int>, b: set<int>)
    ensures Together(a, b) == |a| + Missing(b, a)
  {}

  // A map of `n` entries at most has or can take the key.
  ghost predicate HasRoom(m: map<int, nat>, key: int, n: nat) { key in m || |m.Keys| < n }

  // One more hint merged; if its key is new there is room for it.
  lemma NextMerged(start: map<int, nat>, k: seq<int>, v: seq<nat>, i: nat, n: nat)
    requires |k| == |v| && AllDistinct(k) && i < |k| && Together(start.Keys, MapOf(k, v).Keys) <= n
    ensures var m := Merged(start, k, v, i); Merged(start, k, v, i + 1) == m[k[i] := v[i]] && HasRoom(m, k[i], n)
  {
    hide MapOf;
    var a, m := MapOf(k[..i], v[..i]), start + MapOf(k[..i], v[..i]);
    PrefixMap(k, v, i);
    MergeOne(start, a, k[i], v[i]);
    if k[i] !in m {
      NewKeyGrows(start, a, MapOf(k, v), k[i]);
    }
  }

  lemma NewKeyGrows(start: map<int, nat>, a: map<int, nat>, all: map<int, nat>, x: int)
    requires a.Keys <= all.Keys && x in all && x !in start + a
    ensures |(start + a).Keys| < Together(start.Keys, all.Keys)
  {
    assert (start + a).Keys == start.Keys + a.Keys;
    Smaller((start + a).Keys, start.Keys + all.Keys);
  }

  lemma MergeOne(start: map<int, nat>, a: map<int, nat>, x: int, y: nat)
    ensures start + a[x := y] == (start + a)[x := y]
  {}

  lemma PrefixMap(k: seq<int>, v: seq<nat>, i: nat)
    requires |k| == |v| && AllDistinct(k) && i < |k|
    ensures AllDistinct(k[..i]) && AllDistinct(k[..i + 1]) && k[i] !in k[..i]
    ensures MapOf(k[..i + 1], v[..i + 1]) == MapOf(k[..i], v[..i])[k[i] := v[i]]
    ensures MapOf(k[..i], v[..i]).Keys <= MapOf(k, v).Keys && k[i] in MapOf(k, v).Keys
  {}

  lemma Smaller(a: set<int>, b: set<int>)
    requires a < b
    ensures |a| < |b|
  {
    var rest := b - a;
    assert b == a + rest;
    assert rest != {};
  }

  // How many keys two sets have together, and how many of `a` are not in `b`.
  ghost function Together(a: set<int>, b: set<int>): nat { |a + b| }

  ghost function Missing(a: set<int>, b: set<int>): nat { |a - b| }

  // How many of the first `i` keys are not among `mine`.
  ghost function NewCount(k: seq<int>, mine: set<int>, i: nat): nat
    requires i <= |k|
  {
    |KeySet(k[..i]) - mine|
  }

  lemma NewCountEnds(k: seq<int>, mine: set<int>)
    ensures NewCount(k, mine, 0) == 0 && NewCount(k, mine, |k|) == Missing(KeySet(k), mine)
  {
    assert KeySet(k[..0]) - mine == {};
    assert k[..|k|] == k;
  }

  lemma NewKey(k: seq<int>, i: nat, mine: set<int>)
    requires AllDistinct(k) && i < |k|
    ensures NewCount(k, mine, i + 1) == NewCount(k, mine, i) + if k[i] in mine then 0 else 1
  {
    var a, b := KeySet(k[..i]) - mine, KeySet(k[..i + 1]) - mine;
    assert k[..i + 1] == k[..i] + [k[i]];
    if k[i] in mine {
      assert a == b;
    } else {
      assert k[i] !in k[..i];
      assert b == a + {k[i]};
    }
  }

  // ----- the persistent part -----

  // The lifetime and hotness hints of `m`, as they are, and no others.
  ghost predicate Lasting(m: map<int, nat>, p: map<int, nat>) {
    && (forall x :: x in p <==> x in m && (x == OBJ_LIFETIME || x == OBJ_HOT_INDEX))
    && (forall x :: x in p ==> p[x] == m[x])
  }

  lemma PersistentLasts(m: map<int, nat>)
    ensures Lasting(m, PersistentOnly(m))
  {}

  ghost function PersistentOnly(m: map<int, nat>): map<int, nat> {
    map x | x in m && ObjHintType(x) == Persistent :: m[x]
  }

  lemma PersistentStep(k: seq<int>, v: seq<nat>, i: nat)
    requires |k| == |v| && AllDistinct(k) && i < |k|
    ensures AllDistinct(k[..i]) && AllDistinct(k[..i + 1]) && k[i] !in PersistentOnly(MapOf(k[..i], v[..i]))
    ensures PersistentOnly(MapOf(k[..i + 1], v[..i + 1])) ==
            var m := PersistentOnly(MapOf(k[..i], v[..i]));
            if ObjHintType(k[i]) == Persistent then m[k[i] := v[i]] else m
  {
    hide MapOf, PersistentOnly;
    PrefixMap(k, v, i);
    PersistentUpdate(MapOf(k[..i], v[..i]), k[i], v[i]);
  }

  lemma PersistentUpdate(m: map<int, nat>, x: int, y: nat)
    requires x !in m
    ensures x !in PersistentOnly(m)
    ensures PersistentOnly(m[x := y]) == if ObjHintType(x) == Persistent then PersistentOnly(m)[x := y] else PersistentOnly(m)
  {}

  // obj_hint_store, up to the driver: the persistent hints gathered in a map of their own.
  method HintStore(hints: HintMap, phints: HintMap)
    requires hints.Valid() && hints.nrEntries <= OBJ_HINT_NUM && hints != phints
    modifies phints
    ensures phints.Valid() && fresh(phints.keys) && fresh(phints.values) && phints.nrEntries == OBJ_HINT_NUM
    ensures phints.Contents() == PersistentOnly(hints.Contents()) && Lasting(hints.Contents(), phints.Contents())
  {
    hide MapOf, AllDistinct, PersistentOnly, Lasting, HintMap.Contents;
    hints.ContentsIs();
    phints.Init(OBJ_HINT_NUM);
    Gather(hints, phints);
    PersistentLasts(hints.Contents());
  }

  method Gather(hints: HintMap, phints: HintMap)
    requires hints.Valid() && phints.Valid() && hints.nrSet <= phints.nrEntries && phints.Contents() == map[]
    requires phints != hints && phints.keys != hints.keys && phints.values != hints.values
    modifies phints`nrSet, phints.keys, phints.values
    ensures hints.Valid() && hints.Contents() == old(hints.Contents())
    ensures phints.Valid() && phints.Contents() == PersistentOnly(hints.Contents())
  {
    hide MapOf, AllDistinct, PersistentOnly, HintMap.Contents, HintMap.Valid;
    hints.ContentsIs();
    phints.NoneSet();
    ghost var k, v := hints.keys[..hints.nrSet], hints.values[..hints.nrSet];
    PersistentEnds(k, v);
    for i := 0 to hints.nrSet
      invariant phints.Valid() && phints.nrSet <= i && AllDistinct(k[..i])
      invariant hints.keys[..hints.nrSet] == k && hints.values[..hints.nrSet] == v
      invariant phints.Contents() == PersistentOnly(MapOf(k[..i], v[..i]))
    {
      PersistentStep(k, v, i);
      phints.AppendPersistent(hints.keys[i], hints.values[i]);
    }
  }

  lemma PersistentEnds(k: seq<int>, v: seq<nat>)
    requires |k| == |v| && AllDistinct(k)
    ensures AllDistinct(k[..0]) && PersistentOnly(MapOf(k[..0], v[..0])) == map[]
    ensures MapOf(k[..|k|], v[..|k|]) == MapOf(k, v)
  {}

  // ----- the wire form -----

  // The size and the six access statistics, 64 bits each.
  const NR_ATTRS := 7
  const NONHINT_SIZE := 56

  // An int on the wire and back.
  function U32(x: int): nat { x % TWO_32 }

  function S32(n: nat): int { if n < TWO_31 then n else n - TWO_32 }

  function U32All(k: seq<int>): (u: seq<nat>)
    ensures |u| == |k| && forall i :: 0 <= i < |k| ==> u[i] == U32(k[i])
  {
    seq(|k|, i requires 0 <= i < |k| => U32(k[i]))
  }

  function S32All(u: seq<nat>): (k: seq<int>)
    ensures |k| == |u| && forall i :: 0 <= i < |u| ==> k[i] == S32(u[i])
  {
    seq(|u|, i requires 0 <= i < |u| => S32(u[i]))
  }

  function Wire(attrs: seq<nat>, k: seq<int>, v: seq<nat>): (s: seq<byte>)
    requires |k| == |v|
    ensures |s| == |attrs| * 8 + 4 + |k| * 4 + |v| * 8
  {
    LeAll(attrs, 8) + Le(|k|, 4) + LeAll(U32All(k), 4) + LeAll(v, 8)
  }

  // What decoding makes of a wire form of the given length.
  datatype Unwired = Loaded(attrs: seq<nat>, k: seq<int>, v: seq<nat>) | Malformed(attrs: seq<nat>)

  function UnwireHints(attrs: seq<nat>, nr: int, s: seq<byte>): (u: Unwired)
    ensures u.Loaded? ==> |u.k| == |u.v|
  {
    if nr < 0 || nr > OBJ_HINT_NUM then Malformed(attrs)
    else if nr == 0 then Loaded(attrs, [], [])
    else if |s| != nr * 12 then Malformed(attrs)
    else match GetWords(s, nr, 4)
      case None => Malformed(attrs)
      case Some((k, rest)) =>
        match GetWords(rest, nr, 8)
        case None => Malformed(attrs)
        case Some((v, _)) => Loaded(attrs, S32All(k), v)
  }

  function Unwire(s: seq<byte>): (u: Unwired)
    requires |s| >= NONHINT_SIZE + 4
    ensures u.Loaded? ==> |u.k| == |u.v|
  {
    match GetWords(s, NR_ATTRS, 8)
    case None => Malformed([])
    case Some((attrs, rest)) =>
      match GetWord(rest, 4)
      case None => Malformed(attrs)
      case Some((n, rest')) => UnwireHints(attrs, S32(n), rest')
  }

  // The number of hints a wire form announces.
  function WireCount(s: seq<byte>): int
    requires |s| >= NONHINT_SIZE + 4
  {
    S32(UnLe(s[NONHINT_SIZE..NONHINT_SIZE + 4]))
  }

  predicate CountInRange(n: int) { 0 < n <= OBJ_HINT_NUM }

  // A wire form is decoded exactly when it announces no hints, or has just the length of as many as
  // it announces, which are not too many.
  lemma LoadedExactlyWhen(s: seq<byte>)
    requires |s| >= NONHINT_SIZE + 4
    ensures var n := WireCount(s);
            Unwire(s).Loaded? <==> n == 0 || (CountInRange(n) && |s| == NONHINT_SIZE + 4 + n * 12)
  {
    hide GetWords, GetWord;
    LongEnough(s);
    var n, rest := WireCount(s), s[NONHINT_SIZE + 4..];
    if CountInRange(n) && |s| == NONHINT_SIZE + 4 + n * 12 {
      WordsLeft(rest, n, 4);
      WordsLeft(GetWords(rest, n, 4).value.1, n, 8);
    }
  }

  // Decoding inverts encoding.
  lemma WireRoundTrip(attrs: seq<nat>, k: seq<int>, v: seq<nat>)
    requires |attrs| == NR_ATTRS && |k| == |v| <= OBJ_HINT_NUM
    requires forall i :: 0 <= i < |attrs| ==> attrs[i] < Pow256(8)
    requires forall i :: 0 <= i < |k| ==> -TWO_31 <= k[i] < TWO_31 && v[i] < Pow256(8)
    ensures Unwire(Wire(attrs, k, v)) == Loaded(attrs, k, v)
  {
    hide Le, LeAll, Pow256;
    FourBytes();
    var ks, vs := LeAll(U32All(k), 4), LeAll(v, 8);
    assert Wire(attrs, k, v) == LeAll(attrs, 8) + (Le(|k|, 4) + (ks + vs));
    GetWordsOf(attrs, 8, Le(|k|, 4) + (ks + vs));
    GetWordOf(|k|, 4, ks + vs);
    GetWordsOf(U32All(k), 4, vs);
    assert vs + [] == vs;
    GetWordsOf(v, 8, []);
    assert S32All(U32All(k)) == k;
    if k == [] {
      assert v == [];
    }
  }

  // Where everything is in the wire form.
  lemma WireLayout(attrs: seq<nat>, k: seq<int>, v: seq<nat>, i: nat)
    requires |attrs| == NR_ATTRS && |k| == |v|
    ensures var s, n := Wire(attrs, k, v), |k|;
            && (i < NR_ATTRS ==> s[8 * i..8 * i + 8] == Le(attrs[i], 8))
            && s[56..60] == Le(n, 4)
            && (i < n ==> s[60 + 4 * i..64 + 4 * i] == Le(U32(k[i]), 4))
            && (i < n ==> s[60 + 4 * n + 8 * i..68 + 4 * n + 8 * i] == Le(v[i], 8))
  {
    hide Le, LeAll;
    var s, n := Wire(attrs, k, v), |k|;
    var a, ks, vs := LeAll(attrs, 8), LeAll(U32All(k), 4), LeAll(v, 8);
    assert s[..56] == a && s[56..60] == Le(n, 4) && s[60..60 + 4 * n] == ks && s[60 + 4 * n..] == vs;
    if i < NR_ATTRS {
      LeAllAt(attrs, 8, i);
      assert s[8 * i..8 * i + 8] == s[..56][8 * i..8 * i + 8];
    }
    if i < n {
      LeAllAt(U32All(k), 4, i);
      assert s[60 + 4 * i..64 + 4 * i] == s[60..60 + 4 * n][4 * i..4 * i + 4];
      LeAllAt(v, 8, i);
      assert s[60 + 4 * n + 8 * i..68 + 4 * n + 8 * i] == s[60 + 4 * n..][8 * i..8 * i + 8];
    }
  }

  // A negative int is its two's complement.
  lemma TwosComplement(x: int)
    requires -TWO_31 <= x < TWO_31
    ensures U32(x) == (if x < 0 then x + TWO_32 else x) && S32(U32(x)) == x
  {}

  lemma FourBytes()
    ensures Pow256(4) == TWO_32
  {}

  // motr_obj_attrs_mem2wire.
  method Mem2Wire(attrs: seq<nat>, hints: HintMap) returns (buf: array<byte>)
    requires |attrs| == NR_ATTRS && hints.Valid()
    ensures fresh(buf) && buf[..] == Wire(attrs, hints.keys[..hints.nrSet], hints.values[..hints.nrSet])
  {
    hide LeAll, Le, AllDistinct;
    ghost var k, v := hints.keys[..hints.nrSet], hints.values[..hints.nrSet];
    var n := hints.nrSet;
    buf := new byte[NONHINT_SIZE + 4 + n * (4 + 8)];
    var ptr := new Cursor(buf);
    ptr.PutAll(attrs, 8);
    ptr.Put(n, 4);
    ptr.PutAll(U32All(hints.keys[..n]), 4);
    ptr.PutAll(hints.values[..n], 8);
    assert ptr.pos == buf.Length && buf[..] == buf[..ptr.pos];
  }

  // motr_obj_attrs_wire2mem, for a buffer long enough to hold the attributes.
  method Wire2Mem(buf: array<byte>, hints: HintMap) returns (rc: int, attrs: seq<nat>)
    requires buf.Length >= NONHINT_SIZE + 4 && hints.keys.Length == hints.values.Length >= OBJ_HINT_NUM
    modifies hints`nrSet, hints.keys, hints.values
    ensures attrs == Unwire(buf[..]).attrs && rc == if Unwire(buf[..]).Loaded? then 0 else EIO
    ensures rc < 0 ==>
              && hints.nrSet == (if CountInRange(WireCount(buf[..])) then WireCount(buf[..]) else old(hints.nrSet))
              && hints.keys[..] == old(hints.keys[..]) && hints.values[..] == old(hints.values[..])
    ensures rc == 0 ==>
              var u := Unwire(buf[..]);
              if u.k == [] then
                && hints.nrSet == old(hints.nrSet)
                && hints.keys[..] == old(hints.keys[..]) && hints.values[..] == old(hints.values[..])
              else
                && hints.nrSet == |u.k| <= OBJ_HINT_NUM
                && hints.keys[..|u.k|] == u.k && hints.values[..|u.k|] == u.v
  {
    hide GetWords, GetWord;
    var ptr := new Cursor(buf);
    assert buf[0..] == buf[..];
    LongEnough(buf[..]);
    attrs := ptr.GetAll(NR_ATTRS, 8);
    var word := ptr.Get(4);
    var nr := S32(word);
    if nr < 0 || nr > OBJ_HINT_NUM {
      return EIO, attrs;
    } else if nr == 0 {
      return 0, attrs;
    }
    hints.nrSet := nr;
    if buf.Length != NONHINT_SIZE + 4 + nr * (4 + 8) {
      return EIO, attrs;
    }
    WordsLeft(buf[ptr.pos..], nr, 4);
    var k := ptr.GetAll(nr, 4);
    WordsLeft(buf[ptr.pos..], nr, 8);
    var v := ptr.GetAll(nr, 8);
    FillHints(hints, k, v);
    rc := 0;
  }

  // The decoded keys and values put in place.
  method FillHints(hints: HintMap, k: seq<nat>, v: seq<nat>)
    requires |k| == |v| <= hints.keys.Length == hints.values.Length
    modifies hints.keys, hints.values
    ensures hints.keys[..|k|] == S32All(k) && hints.values[..|v|] == v
  {
    var nr := |k|;
    for i := 0 to nr
      invariant hints.keys[..i] == S32All(k)[..i]
    {
      hints.keys[i] := S32(k[i]);
    }
    for i := 0 to nr
      invariant hints.keys[..nr] == S32All(k) && hints.values[..i] == v[..i]
    {
      hints.values[i] := v[i];
    }
  }

  lemma LongEnough(s: seq<byte>)
    requires |s| >= NONHINT_SIZE + 4
    ensures GetWords(s, NR_ATTRS, 8).Some? && GetWords(s, NR_ATTRS, 8).value.1 == s[NONHINT_SIZE..]
    ensures GetWord(s[NONHINT_SIZE..], 4).Some?
    ensures var (n, rest) := GetWord(s[NONHINT_SIZE..], 4).value; S32(n) == WireCount(s) && rest == s[NONHINT_SIZE + 4..]
  {
    hide GetWords, UnLe;
    WordsLeft(s, NR_ATTRS, 8);
    assert s[NONHINT_SIZE..][..4] == s[NONHINT_SIZE..NONHINT_SIZE + 4];
  }

  lemma {:induction false} WordsLeft(s: seq<byte>, n: nat, w: nat)
    requires n * w <= |s|
    ensures GetWords(s, n, w).Some? && GetWords(s, n, w).value.1 == s[n * w..]
  {
    if n > 0 {
      Distributes(n, 1, w);
      assert (n - 1) * w >= 0;
      WordsLeft(s[w..], n - 1, w);
      assert s[w..][(n - 1) * w..] == s[n * w..];
    }
  }

  lemma WireCountOf(attrs: seq<nat>, k: seq<int>, v: seq<nat>, extra: seq<byte>)
    requires |attrs| == NR_ATTRS && |k| == |v| <= OBJ_HINT_NUM
    ensures WireCount(Wire(attrs, k, v) + extra) == |k|
  {
    hide LeAll, Le, Pow256, UnLe;
    FourBytes();
    var s := Wire(attrs, k, v) + extra;
    assert s == LeAll(attrs, 8) + (Le(|k|, 4) + (LeAll(U32All(k), 4) + LeAll(v, 8) + extra));
    assert s[NONHINT_SIZE..NONHINT_SIZE + 4] == Le(|k|, 4);
    LeRoundTrip(|k|, 4);
  }

  // A wire form with bytes after it is refused, but its key count stays: a fresh map, with all keys
  // invalid, then has several of them set.
  method LoadTooLong(buf: array<byte>, loaded: HintMap, ghost attrs: seq<nat>, ghost k: seq<int>, ghost v: seq<nat>,
                     ghost extra: seq<byte>) returns (rc: int)
    requires |attrs| == NR_ATTRS && 2 <= |k| == |v| <= OBJ_HINT_NUM && extra != []
    requires buf[..] == Wire(attrs, k, v) + extra
    requires loaded.Valid() && loaded.nrEntries == OBJ_HINT_NUM && loaded.nrSet == 0
    requires forall i :: 0 <= i < loaded.keys.Length ==> loaded.keys[i] == HINT_INVALID
    modifies loaded`nrSet, loaded.keys, loaded.values
    ensures rc == EIO && loaded.nrSet == |k| && !loaded.Valid()
  {
    hide Unwire, Wire, WireCount;
    WireCountOf(attrs, k, v, extra);
    LoadedExactlyWhen(buf[..]);
    var attrs';
    rc, attrs' := Wire2Mem(buf, loaded);
    assert loaded.keys[..|k|][0] == loaded.keys[..|k|][1];
  }

  // Hint values are 64 bits wide.
  ghost predicate ValuesFit(m: map<int, nat>) {
    forall x :: x in m ==> m[x] < Pow256(8)
  }

  lemma PersistentFits(k: seq<int>, v: seq<nat>, m: map<int, nat>)
    requires |k| == |v| && AllDistinct(k) && ValuesFit(m) && MapOf(k, v) == PersistentOnly(m)
    ensures forall i :: 0 <= i < |k| ==> -TWO_31 <= k[i] < TWO_31 && v[i] < Pow256(8)
  {}

  // Storing a handle's hints and loading them into a fresh one gives exactly those of its lifetime and
  // hotness, with the same size and statistics.
  method StoreAndLoad(attrs: seq<nat>, hints: HintMap, loaded: HintMap) returns (rc: int, attrs': seq<nat>)
    requires |attrs| == NR_ATTRS && forall i :: 0 <= i < |attrs| ==> attrs[i] < Pow256(8)
    requires hints.Valid() && hints.nrEntries <= OBJ_HINT_NUM && ValuesFit(hints.Contents())
    requires loaded.Valid() && loaded.nrEntries == OBJ_HINT_NUM && loaded.Contents() == map[]
    requires loaded != hints && loaded.keys != hints.keys && loaded.values != hints.values
    modifies loaded`nrSet, loaded.keys, loaded.values
    ensures rc == 0 && attrs' == attrs
    ensures loaded.Valid() && Lasting(hints.Contents(), loaded.Contents())
  {
    hide MapOf, AllDistinct, PersistentOnly, Lasting, HintMap.Contents, Wire, Unwire, ValuesFit, Pow256;
    ghost var m := hints.Contents();
    loaded.NoneSet();
    var phints := new HintMap();
    HintStore(hints, phints);
    phints.ContentsIs();
    ghost var k, v := phints.keys[..phints.nrSet], phints.values[..phints.nrSet];
    PersistentFits(k, v, m);
    var buf := Mem2Wire(attrs, phints);
    WireRoundTrip(attrs, k, v);
    rc, attrs' := Wire2Mem(buf, loaded);
    assert loaded.keys[..loaded.nrSet] == k && loaded.values[..loaded.nrSet] == v;
    loaded.ContentsIs();
  }
}
