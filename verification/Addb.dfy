// Telemetry records packed into the payload of an ADDB measurement and unpacked again
// (mio_motr_addb_encode, mio_motr_addb_decode).
module Addb {
  import opened Errors
  import opened Transfers
  import opened Words

  const MAGIC := 0x202e
  const MAX_PAYLOAD := 120
  const NO_PREFIX_SIGN := 0
  const PREFIX_SIGN := 1

  // enum mio_telemetry_type.
  const TYPE_INVALID := 0
  const TYPE_NONE := 1
  const TYPE_UINT16 := 2
  const TYPE_UINT32 := 3
  const TYPE_UINT64 := 4
  const TYPE_TIMESPAN := 5
  const TYPE_TIMEPOINT := 6
  const TYPE_STRING := 7
  const TYPE_ARRAY_UINT16 := 8
  const TYPE_ARRAY_UINT32 := 9
  const TYPE_ARRAY_UINT64 := 10
  const TYPE_NR := 11

  datatype Value = Nothing | Scalar(n: nat) | Elements(e: seq<nat>)

  datatype Rec = Rec(prefix: Option<seq<byte>>, topic: Option<seq<byte>>, ty: nat, value: Value)

  predicate IsScalar(ty: nat) { TYPE_UINT16 <= ty <= TYPE_TIMEPOINT }

  predicate IsArray(ty: nat) { TYPE_ARRAY_UINT16 <= ty <= TYPE_ARRAY_UINT64 }

  // Bytes of a scalar or of an array element.
  function Width(ty: nat): (w: nat)
    ensures w == 2 || w == 4 || w == 8
  {
    if ty == TYPE_UINT16 || ty == TYPE_ARRAY_UINT16 then 2
    else if ty == TYPE_UINT32 || ty == TYPE_ARRAY_UINT32 then 4
    else 8
  }

  // What a caller passes: a topic, and a value of the type it names.
  ghost predicate WellTyped(r: Rec) {
    && r.topic.Some?
    && (IsScalar(r.ty) ==> r.value.Scalar? && r.value.n < Pow256(Width(r.ty)))
    && (IsArray(r.ty) ==> r.value.Elements? && forall k :: 0 <= k < |r.value.e| ==> r.value.e[k] < Pow256(Width(r.ty)))
  }

  // strnlen(string, MIO_MOTR_ADDB_MAX_PAYLOAD).
  function Strnlen(s: seq<byte>): nat {
    if |s| < MAX_PAYLOAD then |s| else MAX_PAYLOAD
  }

  function PrefixLen(r: Rec): nat {
    if r.prefix.Some? then Strnlen(r.prefix.value) else 0
  }

  // motr_addb_rec_value_len; none for the types that cannot be packed.
  function ValueLen(r: Rec): (n: nat)
    requires IsScalar(r.ty) || (IsArray(r.ty) && r.value.Elements?)
  {
    if IsArray(r.ty) then |r.value.e| * Width(r.ty) else Width(r.ty)
  }

  // motr_addb_rec_len.
  function RecLen(r: Rec): nat
    requires r.topic.Some? && (IsScalar(r.ty) || (IsArray(r.ty) && r.value.Elements?))
  {
    2 + PrefixLen(r) + 2 + Strnlen(r.topic.value) + 1 + ValueLen(r) + 1
  }

  // What the record is given: rounded up to 64-bit items.
  function BufLen(r: Rec): nat
    requires r.topic.Some? && (IsScalar(r.ty) || (IsArray(r.ty) && r.value.Elements?))
  {
    ((RecLen(r) + 7) / 8) * 8
  }

  predicate CountOk(ty: nat, n: nat) {
    0 < n < MAX_PAYLOAD / Width(ty)
  }

  // The records encoding accepts.
  predicate Packable(r: Rec) {
    IsScalar(r.ty) || (IsArray(r.ty) && r.value.Elements? && CountOk(r.ty, |r.value.e|))
  }

  // ----- the packed form -----

  function PackString(s: seq<byte>): seq<byte> {
    Le(Strnlen(s), 1) + s[..Strnlen(s)]
  }

  function PackPrefix(p: Option<seq<byte>>): seq<byte> {
    match p
    case None => Le(NO_PREFIX_SIGN, 1)
    case Some(s) => Le(PREFIX_SIGN, 1) + PackString(s)
  }

  ghost function PackValue(ty: nat, v: Value): seq<byte>
    requires (IsScalar(ty) && v.Scalar?) || (IsArray(ty) && v.Elements?)
  {
    if IsScalar(ty) then Le(v.n, Width(ty)) else Le(|v.e|, 1) + LeAll(v.e, Width(ty))
  }

  ghost function Packed(r: Rec): seq<byte>
    requires WellTyped(r) && Packable(r)
  {
    Le(MAGIC, 2) + PackPrefix(r.prefix) + PackString(r.topic.value) + Le(r.ty, 1) + PackValue(r.ty, r.value)
  }

  lemma StringLayout(s: seq<byte>)
    ensures PackString(s) == [Strnlen(s) as byte] + s[..Strnlen(s)]
  {}

  lemma ValueLayout(ty: nat, v: Value)
    requires (IsScalar(ty) && v.Scalar?) || (IsArray(ty) && v.Elements? && |v.e| < 256)
    ensures PackValue(ty, v) ==
            if v.Scalar? then Le(v.n, if ty == 2 then 2 else if ty == 3 then 4 else 8)
            else [|v.e| as byte] + LeAll(v.e, if ty == 8 then 2 else if ty == 9 then 4 else 8)
  {
    hide LeAll;
    if v.Elements? {
      assert Le(|v.e|, 1) == [|v.e| as byte];
    }
  }

  lemma HeadLayout(ty: nat)
    requires ty < 256
    ensures Le(MAGIC, 2) == [0x2e, 0x20] && Le(NO_PREFIX_SIGN, 1) == [0] && Le(PREFIX_SIGN, 1) == [1] && Le(ty, 1) == [ty as byte]
  {}

  // The packed form spelt out: magic number, prefix sign, strings after their lengths, type, value.
  lemma PackedLayout(r: Rec)
    requires WellTyped(r) && Packable(r)
    ensures IsArray(r.ty) ==> 0 < |r.value.e| < if r.ty == 8 then 60 else if r.ty == 9 then 30 else 15
    ensures Packed(r) ==
            [0x2e, 0x20]
            + (match r.prefix
               case None => [0]
               case Some(p) => [1] + ([Strnlen(p) as byte] + p[..Strnlen(p)]))
            + ([Strnlen(r.topic.value) as byte] + r.topic.value[..Strnlen(r.topic.value)])
            + [r.ty as byte]
            + (match r.value
               case Scalar(n) => Le(n, if r.ty == 2 then 2 else if r.ty == 3 then 4 else 8)
               case Elements(e) => [|e| as byte] + LeAll(e, if r.ty == 8 then 2 else if r.ty == 9 then 4 else 8)
               case Nothing => [])
  {
    hide LeAll, Le, PackString, PackValue, Strnlen;
    HeadLayout(r.ty);
    StringLayout(r.topic.value);
    if r.prefix.Some? {
      StringLayout(r.prefix.value);
    }
    ValueLayout(r.ty, r.value);
  }

  lemma PackedLen(r: Rec)
    requires WellTyped(r) && Packable(r)
    ensures |Packed(r)| ==
            5 + PrefixLen(r) + Strnlen(r.topic.value) + ValueLen(r)
            + (if r.prefix.Some? then 1 else 0) + (if IsArray(r.ty) then 1 else 0)
  {}

  // The length computed up front suffices except for an array with a prefix that would fill the
  // last item exactly: there one more byte is needed.
  lemma LengthSufficesExactlyWhen(r: Rec)
    requires WellTyped(r) && Packable(r)
    ensures |Packed(r)| <= BufLen(r) <==> !(IsArray(r.ty) && r.prefix.Some? && RecLen(r) % 8 == 0)
    ensures |Packed(r)| <= BufLen(r) + 1
    ensures BufLen(r) % 8 == 0
  {
    PackedLen(r);
  }

  // One 64-bit element with a prefix and a topic of a byte each: 17 bytes, of which 16 are counted.
  lemma OneByteShort()
    ensures var r := Rec(Some([80]), Some([84]), TYPE_ARRAY_UINT64, Elements([7]));
            WellTyped(r) && Packable(r) && |Packed(r)| == 17 && BufLen(r) == 16
  {
    assert Pow256(8) > 7 by { assert Pow256(7) > 0; }
    PackedLen(Rec(Some([80]), Some([84]), TYPE_ARRAY_UINT64, Elements([7])));
  }

  // ----- unpacking -----

  // A string of no bytes, or too many, is not taken.
  function GetString(s: seq<byte>): (r: Option<(Option<seq<byte>>, seq<byte>)>) {
    match GetWord(s, 1)
    case None => None
    case Some((len, rest)) =>
      if len == 0 || len >= MAX_PAYLOAD then Some((None, rest))
      else if |rest| < len then None
      else Some((Some(rest[..len]), rest[len..]))
  }

  // An array of too many elements is left empty.
  function GetElements(s: seq<byte>, ty: nat): (r: Option<(seq<nat>, seq<byte>)>) {
    match GetWord(s, 1)
    case None => None
    case Some((n, rest)) => if n >= MAX_PAYLOAD / Width(ty) then Some(([], rest)) else GetWords(rest, n, Width(ty))
  }

  // What unpacking makes of a buffer; `Overrun` when it would read past the end.
  datatype Result = Ok(rec: Rec) | Err(rc: int) | Overrun

  function UnpackValue(s: seq<byte>, prefix: Option<seq<byte>>, topic: Option<seq<byte>>, ty: nat): Result {
    if ty == TYPE_NONE then Ok(Rec(prefix, topic, ty, Nothing))
    else if IsScalar(ty) then
      match GetWord(s, Width(ty))
      case None => Overrun
      case Some((n, _)) => Ok(Rec(prefix, topic, ty, Scalar(n)))
    else if IsArray(ty) then
      match GetElements(s, ty)
      case None => Overrun
      case Some((e, _)) => Ok(Rec(prefix, topic, ty, Elements(e)))
    else Err(EINVAL)
  }

  function UnpackTopic(s: seq<byte>, prefix: Option<seq<byte>>): Result {
    match GetString(s)
    case None => Overrun
    case Some((topic, rest)) =>
      match GetWord(rest, 1)
      case None => Overrun
      case Some((ty, rest')) => UnpackValue(rest', prefix, topic, ty)
  }

  function UnpackPrefix(s: seq<byte>): Result {
    match GetWord(s, 1)
    case None => Overrun
    case Some((sign, rest)) =>
      if sign == PREFIX_SIGN then
        match GetString(rest)
        case None => Overrun
        case Some((prefix, rest')) => UnpackTopic(rest', prefix)
      else UnpackTopic(rest, None)
  }

  function Unpacked(s: seq<byte>): Result {
    match GetWord(s, 2)
    case None => Overrun
    case Some((magic, rest)) => if magic != MAGIC then Err(EINVAL) else UnpackPrefix(rest)
  }

  // ----- round trip -----

  predicate Short(s: seq<byte>) { 0 < |s| < MAX_PAYLOAD }

  lemma SmallWidths()
    ensures Pow256(1) == 256 && Pow256(2) == 65536
  {}

  lemma GetStringOf(s: seq<byte>, rest: seq<byte>)
    ensures GetString(PackString(s) + rest) ==
            if Short(s) then Some((Some(s), rest)) else Some((None, s[..Strnlen(s)] + rest))
  {
    SmallWidths();
    var n := Strnlen(s);
    GetWordOf(n, 1, s[..n] + rest);
    assert PackString(s) + rest == Le(n, 1) + (s[..n] + rest);
    if Short(s) {
      assert (s[..n] + rest)[..n] == s && (s[..n] + rest)[n..] == rest;
    }
  }

  lemma UnpackValueOf(r: Rec, rest: seq<byte>)
    requires WellTyped(r) && Packable(r)
    ensures UnpackValue(PackValue(r.ty, r.value) + rest, r.prefix, r.topic, r.ty) == Ok(r)
  {
    SmallWidths();
    var w := Width(r.ty);
    if IsScalar(r.ty) {
      GetWordOf(r.value.n, w, rest);
    } else {
      var e := r.value.e;
      GetWordOf(|e|, 1, LeAll(e, w) + rest);
      GetWordsOf(e, w, rest);
      assert PackValue(r.ty, r.value) + rest == Le(|e|, 1) + (LeAll(e, w) + rest);
    }
  }

  lemma UnpackTopicOf(r: Rec, rest: seq<byte>)
    requires WellTyped(r) && Packable(r)
    ensures UnpackTopic(PackString(r.topic.value) + Le(r.ty, 1) + PackValue(r.ty, r.value) + rest, r.prefix) == Ok(r)
            <==> Short(r.topic.value)
  {
    hide PackString, PackValue, GetString, UnpackValue, Le;
    SmallWidths();
    var t, v := Le(r.ty, 1), PackValue(r.ty, r.value);
    var s := PackString(r.topic.value) + t + v + rest;
    assert s == PackString(r.topic.value) + (t + (v + rest));
    GetStringOf(r.topic.value, t + (v + rest));
    GetWordOf(r.ty, 1, v + rest);
    UnpackValueOf(r, rest);
    TopicKept(s, r.prefix);
  }

  // The strings end up in the record as they were read.
  lemma TopicKept(s: seq<byte>, prefix: Option<seq<byte>>)
    ensures var u := UnpackTopic(s, prefix);
            u.Ok? ==> u.rec.prefix == prefix && GetString(s).Some? && u.rec.topic == GetString(s).value.0
  {}

  // Unpacking a packed record, with any padding, gives it back exactly when its strings have
  // between 1 and 119 bytes.
  lemma RoundTripExactlyWhen(r: Rec, pad: seq<byte>)
    requires WellTyped(r) && Packable(r)
    ensures Unpacked(Packed(r) + pad) == Ok(r)
            <==> Short(r.topic.value) && (r.prefix.Some? ==> Short(r.prefix.value))
  {
    hide PackString, PackValue, GetString, UnpackTopic, Le;
    SmallWidths();
    var tail := PackString(r.topic.value) + Le(r.ty, 1) + PackValue(r.ty, r.value) + pad;
    var s := PackPrefix(r.prefix) + tail;
    assert Packed(r) + pad == Le(MAGIC, 2) + s;
    GetWordOf(MAGIC, 2, s);
    UnpackTopicOf(r, pad);
    match r.prefix {
      case None => GetWordOf(NO_PREFIX_SIGN, 1, tail);
      case Some(p) =>
        assert s == Le(PREFIX_SIGN, 1) + (PackString(p) + tail);
        GetWordOf(PREFIX_SIGN, 1, PackString(p) + tail);
        GetStringOf(p, tail);
        TopicKept(p[..Strnlen(p)] + tail, None);
    }
  }

  // An empty topic comes back as none at all.
  lemma EmptyTopicIsLost(n: nat)
    requires n < Pow256(2)
    ensures var r := Rec(None, Some([]), TYPE_UINT16, Scalar(n));
            WellTyped(r) && Packable(r) && Unpacked(Packed(r)) == Ok(r.(topic := None))
  {
    hide Le;
    SmallWidths();
    var value := Le(n, 2);
    var typed := Le(TYPE_UINT16, 1) + value;
    var topic := PackString([]) + typed;
    var all := Le(NO_PREFIX_SIGN, 1) + topic;
    assert Packed(Rec(None, Some([]), TYPE_UINT16, Scalar(n))) == Le(MAGIC, 2) + all;
    GetWordOf(MAGIC, 2, all);
    GetWordOf(NO_PREFIX_SIGN, 1, topic);
    GetStringOf([], typed);
    assert [] + typed == typed;
    GetWordOf(TYPE_UINT16, 1, value);
    assert value + [] == value;
    GetWordOf(n, 2, []);
  }

  // ----- the packing and unpacking functions -----

  // motr_addb_rec_add_string.
  method AddString(c: Cursor, s: seq<byte>)
    requires c.pos + 1 + Strnlen(s) <= c.buf.Length
    modifies c, c.buf
    ensures c.pos == old(c.pos) + 1 + Strnlen(s) && c.buf[..c.pos] == old(c.buf[..c.pos]) + PackString(s)
  {
    hide Le;
    ghost var before := c.buf[..c.pos];
    c.Put(Strnlen(s), 1);
    c.PutBytes(s[..Strnlen(s)]);
    assert before + (Le(Strnlen(s), 1) + s[..Strnlen(s)]) == before + Le(Strnlen(s), 1) + s[..Strnlen(s)];
  }

  // motr_addb_rec_add_value, with motr_addb_rec_add_array.
  method AddValue(c: Cursor, ty: nat, v: Value) returns (rc: int)
    requires (IsScalar(ty) && v.Scalar?) || (IsArray(ty) && v.Elements?)
    requires c.pos <= c.buf.Length
    requires (IsArray(ty) && !CountOk(ty, |v.e|)) || c.pos + |PackValue(ty, v)| <= c.buf.Length
    modifies c, c.buf
    ensures rc == if IsArray(ty) && !CountOk(ty, |v.e|) then EINVAL else 0
    ensures rc == 0 ==> c.pos == old(c.pos) + |PackValue(ty, v)| && c.buf[..c.pos] == old(c.buf[..c.pos]) + PackValue(ty, v)
  {
    hide Le, LeAll;
    ghost var before := c.buf[..c.pos];
    if IsScalar(ty) {
      c.Put(v.n, Width(ty));
      return 0;
    }
    var n := |v.e|;
    if n <= 0 || n >= MAX_PAYLOAD / Width(ty) {
      return EINVAL;
    }
    c.Put(n, 1);
    c.PutAll(v.e, Width(ty));
    assert before + (Le(n, 1) + LeAll(v.e, Width(ty))) == before + Le(n, 1) + LeAll(v.e, Width(ty));
    return 0;
  }

  ghost function Header(r: Rec): seq<byte>
    requires r.topic.Some?
  {
    Le(MAGIC, 2) + PackPrefix(r.prefix) + PackString(r.topic.value) + Le(r.ty, 1)
  }

  // Everything before the value.
  method AddHeader(c: Cursor, r: Rec)
    requires r.topic.Some? && c.pos == 0 && |Header(r)| <= c.buf.Length
    modifies c, c.buf
    ensures c.pos == |Header(r)| && c.buf[..c.pos] == Header(r)
  {
    hide Le, PackString;
    PackStringLen(r.topic.value);
    c.Put(MAGIC, 2);
    if r.prefix.Some? {
      PackStringLen(r.prefix.value);
      c.Put(PREFIX_SIGN, 1);
      AddString(c, r.prefix.value);
      assert Le(MAGIC, 2) + (Le(PREFIX_SIGN, 1) + PackString(r.prefix.value)) ==
             Le(MAGIC, 2) + Le(PREFIX_SIGN, 1) + PackString(r.prefix.value);
    } else {
      c.Put(NO_PREFIX_SIGN, 1);
    }
    assert c.buf[..c.pos] == Le(MAGIC, 2) + PackPrefix(r.prefix);
    AddString(c, r.topic.value);
    c.Put(r.ty, 1);
  }

  lemma PackStringLen(s: seq<byte>)
    ensures |PackString(s)| == 1 + Strnlen(s)
  {}

  lemma HeaderFits(r: Rec)
    requires r.topic.Some? && (IsScalar(r.ty) || (IsArray(r.ty) && r.value.Elements?))
    ensures |Header(r)| <= RecLen(r) <= BufLen(r)
  {}

  // mio_motr_addb_encode, for records the computed length suffices for.
  method Encode(r: Rec) returns (rc: int, buf: array?<byte>)
    requires WellTyped(r)
    requires Packable(r) ==> |Packed(r)| <= BufLen(r)
    ensures rc == if Packable(r) then 0 else EINVAL
    ensures rc < 0 ==> buf == null
    ensures rc == 0 ==> buf != null && fresh(buf) && buf[..] == Packed(r) + Zeros(BufLen(r) - |Packed(r)|)
  {
    buf := null;
    if r.ty <= TYPE_INVALID || r.ty >= TYPE_NR {
      return EINVAL, null;
    }
    if !IsScalar(r.ty) && !IsArray(r.ty) {
      return EINVAL, null;
    }
    HeaderFits(r);
    var encoded := new byte[BufLen(r)];
    var cursor := new Cursor(encoded);
    AddHeader(cursor, r);
    if Packable(r) {
      assert Packed(r) == Header(r) + PackValue(r.ty, r.value);
    }
    rc := AddValue(cursor, r.ty, r.value);
    if rc < 0 {
      return;
    }
    cursor.PutBytes(Zeros(BufLen(r) - cursor.pos));
    buf := encoded;
    assert encoded[..encoded.Length] == encoded[..];
  }

  // motr_addb_rec_get_string.
  method TakeString(c: Cursor) returns (s: Option<seq<byte>>)
    requires c.pos <= c.buf.Length && GetString(c.buf[c.pos..]).Some?
    modifies c`pos
    ensures c.pos <= c.buf.Length && GetString(old(c.buf[c.pos..])) == Some((s, c.buf[c.pos..]))
  {
    var len := c.Get(1);
    if len == 0 || len >= MAX_PAYLOAD {
      return None;
    }
    s := Some(c.buf[c.pos..c.pos + len]);
    assert c.buf[c.pos..][..len] == s.value && c.buf[c.pos..][len..] == c.buf[c.pos + len..];
    c.pos := c.pos + len;
  }

  // motr_addb_rec_get_value, with motr_addb_rec_get_array.
  method TakeValue(c: Cursor, ty: nat) returns (rc: int, v: Value)
    requires c.pos <= c.buf.Length && UnpackValue(c.buf[c.pos..], None, None, ty) != Overrun
    modifies c`pos
    ensures rc == 0 || rc == EINVAL
    ensures UnpackValue(old(c.buf[c.pos..]), None, None, ty) == if rc < 0 then Err(rc) else Ok(Rec(None, None, ty, v))
  {
    rc, v := 0, Nothing;
    if ty == TYPE_NONE {
      return;
    }
    if IsScalar(ty) {
      var n := c.Get(Width(ty));
      v := Scalar(n);
    } else if IsArray(ty) {
      var n := c.Get(1);
      if n >= MAX_PAYLOAD / Width(ty) {
        return 0, Elements([]);
      }
      var e := c.GetAll(n, Width(ty));
      v := Elements(e);
    } else {
      rc := EINVAL;
    }
  }

  lemma UnpackValueWith(s: seq<byte>, prefix: Option<seq<byte>>, topic: Option<seq<byte>>, ty: nat)
    ensures var u := UnpackValue(s, None, None, ty);
            UnpackValue(s, prefix, topic, ty) == if u.Ok? then Ok(Rec(prefix, topic, ty, u.rec.value)) else u
  {}

  // mio_motr_addb_decode, of a buffer that holds a whole record.
  method Decode(buf: array<byte>) returns (rc: int, r: Rec)
    requires Unpacked(buf[..]) != Overrun
    ensures rc == 0 || rc == EINVAL
    ensures Unpacked(buf[..]) == if rc < 0 then Err(rc) else Ok(r)
  {
    hide GetString, UnpackValue;
    r := Rec(None, None, TYPE_INVALID, Nothing);
    var cursor := new Cursor(buf);
    assert buf[0..] == buf[..];
    var magic := cursor.Get(2);
    if magic != MAGIC {
      return EINVAL, r;
    }
    var prefix, topic: Option<seq<byte>> := None, None;
    var hasPrefix := cursor.Get(1);
    if hasPrefix == PREFIX_SIGN {
      prefix := TakeString(cursor);
    }
    topic := TakeString(cursor);
    var ty := cursor.Get(1);
    UnpackValueWith(buf[cursor.pos..], prefix, topic, ty);
    var v;
    rc, v := TakeValue(cursor, ty);
    if rc < 0 {
      return;
    }
    r := Rec(prefix, topic, ty, v);
  }
}
