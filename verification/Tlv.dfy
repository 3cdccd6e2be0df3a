/** MeshCoP TLV strings: the list they encode, and the search of thread_meshcop.cpp over them. */
module Tlv {
  import opened CTypes

  type Bytes = seq<U8>

  const EXTENDED: U8 := 0xFF

  /** A TLV, with the form of its length field: one byte, or 0xFF and two bytes. */
  datatype Tlv = Tlv(typ: U8, extended: bool, value: Bytes)

  predicate Valid(t: Tlv) {
    if t.extended then |t.value| < 0x1_0000 else |t.value| < 0xFF
  }

  predicate AllValid(ts: seq<Tlv>) {
    forall i :: 0 <= i < |ts| ==> Valid(ts[i])
  }

  function Header(t: Tlv): Bytes
    requires Valid(t)
  {
    if t.extended then [t.typ, EXTENDED, Hi(|t.value|), Lo(|t.value|)] else [t.typ, |t.value|]
  }

  function EncodeTlv(t: Tlv): Bytes
    requires Valid(t)
  {
    Header(t) + t.value
  }

  function EncodeAll(ts: seq<Tlv>): Bytes
    requires AllValid(ts)
  {
    if ts == [] then [] else EncodeTlv(ts[0]) + EncodeAll(ts[1..])
  }

  /** The complete TLV at the front of d, if there is one. */
  function Head(d: Bytes): (r: Option<Tlv>)
    ensures r.Some? ==> Valid(r.value) && |EncodeTlv(r.value)| <= |d|
  {
    if |d| < 2 then None
    else if d[1] != EXTENDED then
      if 2 + d[1] as int > |d| then None else Some(Tlv(d[0], false, d[2..2 + d[1] as int]))
    else if |d| < 4 || 4 + Word(d[2], d[3]) as int > |d| then None
    else Some(Tlv(d[0], true, d[4..4 + Word(d[2], d[3]) as int]))
  }

  /** The TLVs read one after another until no complete one follows. */
  function Parse(d: Bytes): (ts: seq<Tlv>)
    ensures AllValid(ts)
    decreases |d|
  {
    var h := Head(d);
    if h.None? then [] else [h.value] + Parse(d[|EncodeTlv(h.value)|..])
  }

  lemma HeadReads(d: Bytes)
    requires Head(d).Some?
    ensures EncodeTlv(Head(d).value) <= d
  {
    hide Word, Hi, Lo;
    var t := Head(d).value;
    if t.extended {
      WordOfBytes(0, d[2], d[3]);
      assert Header(t) == d[..4];
    } else {
      assert Header(t) == d[..2];
    }
    assert d[..|Header(t)|] + d[|Header(t)|..|Header(t)| + |t.value|] == d[..|Header(t)| + |t.value|];
  }

  lemma HeadOfEncoding(t: Tlv, rest: Bytes)
    requires Valid(t)
    ensures Head(EncodeTlv(t) + rest) == Some(t) && (EncodeTlv(t) + rest)[|EncodeTlv(t)|..] == rest
  {
    hide Word, Hi, Lo;
    var d, h := EncodeTlv(t) + rest, Header(t);
    assert d[..|h|] == h && d[|h|..|h| + |t.value|] == t.value;
    if t.extended {
      WordOfBytes(|t.value|, 0, 0);
      assert d[2] == h[2] && d[3] == h[3];
    } else {
      assert d[0] == h[0] && d[1] == h[1];
    }
  }

  lemma PrefixHasHead(d: Bytes, t: Tlv)
    requires Valid(t) && EncodeTlv(t) <= d
    ensures Head(d) == Some(t)
  {
    HeadOfEncoding(t, d[|EncodeTlv(t)|..]);
    assert d == EncodeTlv(t) + d[|EncodeTlv(t)|..];
  }

  /** No complete TLV stands at the front of d, in either length form. */
  ghost predicate NoTlvAhead(d: Bytes) {
    forall t :: Valid(t) ==> !(EncodeTlv(t) <= d)
  }

  /** Reading splits d into the encoding of the list and a rest that opens with no TLV. */
  lemma {:induction false} ParseSplits(d: Bytes) returns (rest: Bytes)
    ensures d == EncodeAll(Parse(d)) + rest && NoTlvAhead(rest)
    decreases |d|
  {
    hide EncodeTlv, Head;
    var h := Head(d);
    if h.None? {
      rest := d;
      forall t | Valid(t) ensures !(EncodeTlv(t) <= d) {
        if EncodeTlv(t) <= d { PrefixHasHead(d, t); }
      }
    } else {
      HeadReads(d);
      var tail := d[|EncodeTlv(h.value)|..];
      TlvIsNonEmpty(h.value);
      rest := ParseSplits(tail);
      assert Parse(d)[1..] == Parse(tail);
      assert d == EncodeTlv(h.value) + tail;
    }
  }

  lemma TlvIsNonEmpty(t: Tlv)
    requires Valid(t)
    ensures |EncodeTlv(t)| >= 2
  {
  }

  lemma PrefixSplit(a: Bytes, b: Bytes, d: Bytes)
    requires a + b <= d
    ensures a <= d && b <= d[|a|..]
  {
    assert d[..|a|] == (a + b)[..|a|] == a;
    assert d[|a|..][..|b|] == (a + b)[|a|..] == b;
  }

  /** The list is the longest one there is: any list encoded at the front of d is a prefix of it. */
  lemma {:induction false} ParseIsMaximal(d: Bytes, ts: seq<Tlv>)
    requires AllValid(ts) && EncodeAll(ts) <= d
    ensures ts <= Parse(d)
    decreases |ts|
  {
    if ts != [] {
      hide EncodeTlv, Head;
      var first, more := EncodeTlv(ts[0]), EncodeAll(ts[1..]);
      TlvIsNonEmpty(ts[0]);
      PrefixSplit(first, more, d);
      PrefixHasHead(d, ts[0]);
      ParseIsMaximal(d[|first|..], ts[1..]);
      assert Parse(d) == [ts[0]] + Parse(d[|first|..]);
    }
  }

  /** An encoded list, alone in its buffer, is read back whole. */
  lemma {:induction false} ParseEncoded(ts: seq<Tlv>)
    requires AllValid(ts)
    ensures Parse(EncodeAll(ts)) == ts
  {
    if ts != [] {
      hide EncodeTlv, Head;
      TlvIsNonEmpty(ts[0]);
      HeadOfEncoding(ts[0], EncodeAll(ts[1..]));
      ParseEncoded(ts[1..]);
      assert ts == [ts[0]] + ts[1..];
    }
  }

  /** The value of the first TLV of a type. */
  function First(ts: seq<Tlv>, typ: U8): Option<Bytes> {
    if ts == [] then None
    else if ts[0].typ == typ then Some(ts[0].value)
    else First(ts[1..], typ)
  }

  /** It is the value of the earliest TLV of that type, and there is none exactly when there is no such TLV. */
  lemma {:induction false} FirstIsFirst(ts: seq<Tlv>, typ: U8)
    ensures First(ts, typ).None? <==> forall i :: 0 <= i < |ts| ==> ts[i].typ != typ
    ensures First(ts, typ).Some? ==>
      exists i :: 0 <= i < |ts| && ts[i].typ == typ && ts[i].value == First(ts, typ).value && NotBefore(ts, typ, i)
  {
    if ts != [] {
      FirstIsFirst(ts[1..], typ);
      assert forall i :: 0 <= i < |ts| - 1 ==> ts[1..][i] == ts[i + 1];
      if ts[0].typ == typ {
        assert NotBefore(ts, typ, 0);
      } else if First(ts, typ).Some? {
        var i :| 0 <= i < |ts| - 1 && ts[1..][i].typ == typ && ts[1..][i].value == First(ts, typ).value
          && NotBefore(ts[1..], typ, i);
        assert ts[i + 1] == ts[1..][i];
        forall j | 0 <= j < i + 1 ensures ts[j].typ != typ {
          if j > 0 { assert ts[j] == ts[1..][j - 1]; }
        }
        assert NotBefore(ts, typ, i + 1);
      }
    }
  }

  ghost predicate NotBefore(ts: seq<Tlv>, typ: U8, i: nat)
    requires i <= |ts|
  {
    forall j :: 0 <= j < i ==> ts[j].typ != typ
  }

  /** A TLV by the numbers: type, length, value, the length in one byte or as 255 and two. */
  lemma TlvSpelled(t: Tlv)
    requires Valid(t)
    ensures EncodeTlv(t) ==
      (if t.extended then [t.typ, 255, |t.value| / 256, |t.value| % 256] else [t.typ, |t.value|]) + t.value
    ensures |t.value| < if t.extended then 65536 else 255
  {
  }

  lemma FirstStep(d: Bytes, typ: U8)
    ensures First(Parse(d), typ) == (
      if Head(d).None? then None
      else if Head(d).value.typ == typ then Some(Head(d).value.value)
      else First(Parse(d[|EncodeTlv(Head(d).value)|..]), typ))
  {
    if Head(d).Some? {
      assert Parse(d)[1..] == Parse(d[|EncodeTlv(Head(d).value)|..]);
    }
  }

  /** The TLV whose header takes hdr bytes at position i and whose value takes l. */
  lemma HeadAt(d: Bytes, i: nat, hdr: nat, l: nat)
    requires i + hdr + l <= |d|
    requires (hdr == 2 && d[i + 1] == l && l != 0xFF) || (hdr == 4 && d[i + 1] == 0xFF && Word(d[i + 2], d[i + 3]) == l)
    ensures var s := d[i..];
      Head(s) == Some(Tlv(d[i], hdr == 4, d[i + hdr..i + hdr + l]))
      && |EncodeTlv(Head(s).value)| == hdr + l && s[hdr + l..] == d[i + hdr + l..]
  {
    hide Word, Hi, Lo;
    assert d[i..][hdr..hdr + l] == d[i + hdr..i + hdr + l];
  }

  /** meshcop_tlv_find: position and length of the first value of that type among the TLVs read. */
  method Find(d: Bytes, typ: U8) returns (at: Option<nat>, length: nat)
    ensures at.None? <==> First(Parse(d), typ).None?
    ensures at.Some? ==> at.value + length <= |d| && First(Parse(d), typ) == Some(d[at.value..at.value + length])
  {
    hide Parse, First, EncodeTlv;
    at, length := None, 0;
    var i: nat := 0;
    assert d[0..] == d;
    while i + 2 <= |d|
      invariant i <= |d| && First(Parse(d), typ) == First(Parse(d[i..]), typ)
      decreases |d| - i
    {
      FirstStep(d[i..], typ);
      var t := d[i];
      var l: nat := d[i + 1];
      var hdr: nat := 2;
      if l == 0xFF {
        if i + 4 > |d| { break; }
        l := Word(d[i + 2], d[i + 3]);
        hdr := 4;
      }
      if i + hdr + l > |d| { break; }
      HeadAt(d, i, hdr, l);
      if t == typ {
        return Some(i + hdr), l;
      }
      i := i + hdr + l;
    }
    FirstStep(d[i..], typ);
  }

  /** On an encoded list the search returns the list's own first value of the type, or nothing. */
  method FindInEncoding(ts: seq<Tlv>, typ: U8) returns (r: Option<Bytes>)
    requires AllValid(ts)
    ensures r == First(ts, typ)
  {
    ParseEncoded(ts);
    var d := EncodeAll(ts);
    var at, length := Find(d, typ);
    r := if at.None? then None else Some(d[at.value..at.value + length]);
  }
}
