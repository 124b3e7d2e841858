// Little-endian words in a byte buffer, and a cursor that writes and reads them one after another.
module Words {
  import opened Errors
  import opened Transfers
  import opened Paging

  // The limits of the integer widths the driver uses.
  const TWO_31 := 0x8000_0000
  const TWO_32 := 0x1_0000_0000
  const TWO_64 := 0x1_0000_0000_0000_0000

  // Conversion to uint64_t.
  function ToUint64(x: int): (r: nat)
    ensures r < TWO_64
    ensures 0 <= x < TWO_64 ==> r == x
  {
    x % TWO_64
  }

  function Pow256(w: nat): (p: nat)
    ensures p > 0
  {
    if w == 0 then 1 else 256 * Pow256(w - 1)
  }

  // The low `w` bytes of `n`, lowest first, and the number they stand for.
  function Le(n: nat, w: nat): (s: seq<byte>)
    ensures |s| == w
  {
    if w == 0 then [] else [(n % 256) as byte] + Le(n / 256, w - 1)
  }

  function UnLe(s: seq<byte>): nat {
    if s == [] then 0 else s[0] as nat + 256 * UnLe(s[1..])
  }

  lemma {:induction false} LeRoundTrip(n: nat, w: nat)
    requires n < Pow256(w)
    ensures UnLe(Le(n, w)) == n
  {
    if w > 0 {
      LeRoundTrip(n / 256, w - 1);
      assert Le(n, w)[1..] == Le(n / 256, w - 1);
    }
  }

  // Byte `i` of a word, in place.
  lemma {:induction false} ByteOf(n: nat, w: nat, i: nat)
    requires i < w
    ensures Le(n, w)[i] as nat == n / Pow256(i) % 256
  {
    if i > 0 {
      ByteOf(n / 256, w - 1, i - 1);
      QuotientTwice(n, 256, Pow256(i - 1));
    }
  }

  // Any bytes are those of the word they stand for.
  lemma {:induction false} BytesRoundTrip(s: seq<byte>)
    ensures UnLe(s) < Pow256(|s|) && Le(UnLe(s), |s|) == s
  {
    if s != [] {
      var h, t := s[0] as nat, UnLe(s[1..]);
      BytesRoundTrip(s[1..]);
      assert (h + 256 * t) / 256 == t && (h + 256 * t) % 256 == h;
      assert s == [s[0]] + s[1..];
    }
  }

  // Reading a word off the front of a buffer; none when the buffer is too short.
  function GetWord(s: seq<byte>, w: nat): (r: Option<(nat, seq<byte>)>) {
    if |s| < w then None else Some((UnLe(s[..w]), s[w..]))
  }

  lemma GetWordOf(n: nat, w: nat, rest: seq<byte>)
    requires n < Pow256(w)
    ensures GetWord(Le(n, w) + rest, w) == Some((n, rest))
  {}

  // One after another.
  function LeAll(e: seq<nat>, w: nat): (s: seq<byte>)
    ensures |s| == |e| * w
  {
    if e == [] then [] else Le(e[0], w) + LeAll(e[1..], w)
  }

  function GetWords(s: seq<byte>, n: nat, w: nat): (r: Option<(seq<nat>, seq<byte>)>)
    ensures r.Some? ==> |r.value.0| == n
  {
    if n == 0 then Some(([], s))
    else match GetWord(s, w)
      case None => None
      case Some((x, rest)) =>
        match GetWords(rest, n - 1, w)
        case None => None
        case Some((e, rest')) => Some(([x] + e, rest'))
  }

  lemma {:induction false} GetWordsOf(e: seq<nat>, w: nat, rest: seq<byte>)
    requires forall k :: 0 <= k < |e| ==> e[k] < Pow256(w)
    ensures GetWords(LeAll(e, w) + rest, |e|, w) == Some((e, rest))
  {
    if e == [] {
      assert LeAll(e, w) + rest == rest;
    } else {
      GetWordsOf(e[1..], w, rest);
      GetWordOf(e[0], w, LeAll(e[1..], w) + rest);
      assert LeAll(e, w) + rest == Le(e[0], w) + (LeAll(e[1..], w) + rest);
      assert [e[0]] + e[1..] == e;
    }
  }

  // A buffer and how far into it the next word goes (the char ** of the packing functions).
  class Cursor {
    const buf: array<byte>
    var pos: nat

    constructor (buf: array<byte>)
      ensures this.buf == buf && pos == 0
    {
      this.buf, pos := buf, 0;
    }

    method PutBytes(s: seq<byte>)
      requires pos + |s| <= buf.Length
      modifies this, buf
      ensures pos == old(pos) + |s| && buf[..pos] == old(buf[..pos]) + s
    {
      ghost var before := buf[..pos];
      for i := 0 to |s|
        invariant pos == old(pos)
        invariant buf[..pos + i] == before + s[..i]
      {
        buf[pos + i] := s[i];
        assert s[..i + 1] == s[..i] + [s[i]];
      }
      assert s[..|s|] == s;
      pos := pos + |s|;
    }

    method Put(n: nat, w: nat)
      requires pos + w <= buf.Length
      modifies this, buf
      ensures pos == old(pos) + w && buf[..pos] == old(buf[..pos]) + Le(n, w)
    {
      PutBytes(Le(n, w));
    }

    method PutAll(e: seq<nat>, w: nat)
      requires pos + |e| * w <= buf.Length
      modifies this, buf
      ensures pos == old(pos) + |e| * w && buf[..pos] == old(buf[..pos]) + LeAll(e, w)
    {
      hide LeAll, Le;
      ghost var before := buf[..pos];
      assert LeAll(e[..0], w) == [];
      for i := 0 to |e|
        invariant pos == old(pos) + i * w && buf[..pos] == before + LeAll(e[..i], w)
      {
        LeAllSnoc(e, w, i);
        OneMore(i, |e|, w);
        Put(e[i], w);
      }
      assert e[..|e|] == e;
    }

    method Get(w: nat) returns (n: nat)
      requires pos <= buf.Length && GetWord(buf[pos..], w).Some?
      modifies `pos
      ensures old(pos) <= pos <= buf.Length && GetWord(old(buf[pos..]), w) == Some((n, buf[pos..]))
    {
      n := UnLe(buf[pos..pos + w]);
      assert buf[pos..][..w] == buf[pos..pos + w];
      pos := pos + w;
    }

    method GetAll(n: nat, w: nat) returns (e: seq<nat>)
      requires pos <= buf.Length && GetWords(buf[pos..], n, w).Some?
      modifies `pos
      ensures old(pos) <= pos <= buf.Length && GetWords(old(buf[pos..]), n, w) == Some((e, buf[pos..]))
    {
      ghost var all := buf[pos..];
      e := [];
      assert e + GetWords(all, n, w).value.0 == GetWords(all, n, w).value.0;
      for i := 0 to n
        invariant old(pos) <= pos <= buf.Length
        invariant GetWords(buf[pos..], n - i, w).Some?
        invariant var (rest, tail) := GetWords(buf[pos..], n - i, w).value; GetWords(all, n, w) == Some((e + rest, tail))
      {
        ghost var was := buf[pos..];
        assert GetWord(was, w).Some?;
        var x := Get(w);
        ghost var rest := GetWords(buf[pos..], n - i - 1, w).value.0;
        assert e + ([x] + rest) == (e + [x]) + rest;
        e := e + [x];
      }
      assert e + [] == e;
    }
  }

  // Where element `i` is.
  lemma {:induction false} LeAllAt(e: seq<nat>, w: nat, i: nat)
    requires i < |e|
    ensures (i + 1) * w <= |e| * w && LeAll(e, w)[i * w..(i + 1) * w] == Le(e[i], w)
  {
    OneMore(i, |e|, w);
    if i > 0 {
      LeAllAt(e[1..], w, i - 1);
      OneMore(i - 1, |e|, w);
      assert LeAll(e, w)[w..] == LeAll(e[1..], w);
      assert LeAll(e, w)[i * w..(i + 1) * w] == LeAll(e, w)[w..][(i - 1) * w..i * w];
    }
  }

  lemma OneMore(i: nat, n: nat, w: nat)
    requires i < n
    ensures (i + 1) * w == i * w + w <= n * w
  {}

  lemma LeAllSnoc(e: seq<nat>, w: nat, i: nat)
    requires i < |e|
    ensures LeAll(e[..i + 1], w) == LeAll(e[..i], w) + Le(e[i], w)
  {
    LeAllJoin(e[..i], e[i], w);
    assert e[..i + 1] == e[..i] + [e[i]];
  }

  lemma {:induction false} LeAllJoin(e: seq<nat>, x: nat, w: nat)
    ensures LeAll(e + [x], w) == LeAll(e, w) + Le(x, w)
  {
    if e == [] {
      assert LeAll([], w) == [] && LeAll([x], w) == Le(x, w) + LeAll([], w);
    } else {
      LeAllJoin(e[1..], x, w);
      assert (e + [x])[1..] == e[1..] + [x] && (e + [x])[0] == e[0];
    }
  }
}
