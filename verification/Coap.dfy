/** The CoAP builder and parser of thread_meshcop.cpp, on byte buffers with a moving cursor. */
module Coap {
  import opened CTypes
  import opened CoapFormat
  import opened CoapWalk

  /** coap_build_post's message: confirmable, version 1, POST, four token bytes, the path segments. */
  function PostMessage(id: U16, token: Bytes, segs: seq<Bytes>, payload: Bytes): Message {
    Message(4, POST, id, token, PathOptions(segs), if payload == [] then None else Some(payload))
  }

  function PathOption(seg: Bytes, first: bool): Opt {
    Opt(if first then URI_PATH else 0, seg)
  }

  function PathOptions(segs: seq<Bytes>): (os: seq<Opt>)
    ensures |os| == |segs| && forall i :: 0 <= i < |segs| ==> os[i] == PathOption(segs[i], i == 0)
  {
    seq(|segs|, i requires 0 <= i < |segs| => PathOption(segs[i], i == 0))
  }

  ghost predicate ShortSegments(segs: seq<Bytes>) {
    forall i :: 0 <= i < |segs| ==> |segs[i]| < 13
  }

  function PathSize(segs: seq<Bytes>): nat {
    if segs == [] then 0 else PathSize(segs[..|segs| - 1]) + 1 + |segs[|segs| - 1]|
  }

  function PostSize(segs: seq<Bytes>, payload: Bytes): nat {
    8 + PathSize(segs) + if payload == [] then 0 else 1 + |payload|
  }

  lemma {:induction false} PathSizeGrows(segs: seq<Bytes>, i: nat)
    requires i <= |segs|
    ensures PathSize(segs[..i]) <= PathSize(segs)
  {
    if i == |segs| {
      assert segs[..i] == segs;
    } else {
      var n := |segs| - 1;
      PathSizeGrows(segs[..n], i);
      assert segs[..n][..i] == segs[..i];
    }
  }

  lemma PathSizeStep(segs: seq<Bytes>, i: nat)
    requires i < |segs|
    ensures PathSize(segs[..i + 1]) == PathSize(segs[..i]) + 1 + |segs[i]|
  {
    assert segs[..i + 1][..i] == segs[..i];
  }

  lemma {:induction false} OptionsSnoc(os: seq<Opt>, o: Opt)
    requires ValidOpt(o) && AllValid(os)
    ensures AllValid(os + [o])
    ensures EncodeOptions(os + [o]) == EncodeOptions(os) + EncodeOpt(o)
  {
    hide EncodeOpt, ValidOpt;
    if os == [] {
      assert os + [o] == [o];
      assert [o][1..] == [];
    } else {
      OptionsSnoc(os[1..], o);
      assert (os + [o])[1..] == os[1..] + [o];
    }
  }

  lemma PathStep(segs: seq<Bytes>, i: nat)
    requires i < |segs| && ShortSegments(segs[..i + 1])
    ensures AllValid(PathOptions(segs[..i])) && AllValid(PathOptions(segs[..i + 1]))
    ensures EncodeOptions(PathOptions(segs[..i + 1])) ==
      EncodeOptions(PathOptions(segs[..i]))
      + [(if i == 0 then URI_PATH as int else 0) * 16 + |segs[i]|] + segs[i]
  {
    assert segs[..i + 1][i] == segs[i];
    var o := PathOption(segs[i], i == 0);
    assert PathOptions(segs[..i + 1]) == PathOptions(segs[..i]) + [o];
    OptionsSnoc(PathOptions(segs[..i]), o);
    assert EncodeOpt(o) == [o.delta * 16 + |segs[i]|] + segs[i];
  }

  /** memcpy into the buffer. */
  method CopyIn(buf: array<U8>, pos: nat, val: Bytes)
    requires pos + |val| <= buf.Length
    modifies buf
    ensures buf[..pos] == old(buf[..pos]) && buf[pos..pos + |val|] == val
    ensures buf[pos + |val|..] == old(buf[pos + |val|..])
  {
    for i := 0 to |val|
      invariant buf[..pos] == old(buf[..pos]) && buf[pos..pos + i] == val[..i]
      invariant buf[pos + i..] == old(buf[pos + i..])
    {
      ghost var before := buf[pos + i..];
      buf[pos + i] := val[i];
      assert buf[pos + i + 1..] == before[1..];
    }
  }

  /** coap_put_option: one short option at the cursor, or nothing at all. */
  method PutOption(buf: array<U8>, cap: nat, pos: nat, delta: U8, val: Bytes) returns (ok: bool, next: nat)
    requires pos <= cap <= buf.Length
    modifies buf
    ensures ok <==> delta < 13 && |val| < 13 && pos + 1 + |val| <= cap
    ensures next == if ok then pos + 1 + |val| else pos
    ensures ok ==> buf[..next] == old(buf[..pos]) + [delta as int * 16 + |val|] + val
    ensures !ok ==> buf[..] == old(buf[..])
    ensures buf[cap..] == old(buf[cap..])
  {
    if delta >= 13 || |val| >= 13 { return false, pos; }
    if pos + 1 + |val| > cap { return false, pos; }
    ghost var before := buf[..];
    buf[pos] := delta as int * 16 + |val|;
    CopyIn(buf, pos + 1, val);
    next := pos + 1 + |val|;
    assert buf[..next] == buf[..pos + 1] + buf[pos + 1..next];
    assert buf[..pos + 1] == before[..pos] + [delta as int * 16 + |val|];
    assert buf[cap..] == buf[next..][cap - next..] && before[cap..] == before[next..][cap - next..];
    ok := true;
  }

  /** The bytes before the path options. */
  function PostHeader(id: U16, token: Bytes): Bytes {
    [0x44, POST, Hi(id), Lo(id)] + token
  }

  method WriteHeader(buf: array<U8>, id: U16, token: Bytes)
    requires 8 <= buf.Length && |token| == 4
    modifies buf
    ensures buf[..8] == PostHeader(id, token) && buf[8..] == old(buf[8..])
  {
    buf[0], buf[1], buf[2], buf[3] := 0x44, POST, Hi(id), Lo(id);
    CopyIn(buf, 4, token);
    assert buf[..8] == buf[..4] + buf[4..8];
  }

  /** The options loop: each segment follows the last, or the first one that does not fit stops it. */
  method PutPath(buf: array<U8>, cap: nat, segs: seq<Bytes>) returns (ok: bool, pos: nat)
    requires 8 <= cap <= buf.Length
    modifies buf
    ensures ok <==> ShortSegments(segs) && 8 + PathSize(segs) <= cap
    ensures ok ==> pos == 8 + PathSize(segs) && AllValid(PathOptions(segs))
                   && buf[..pos] == old(buf[..8]) + EncodeOptions(PathOptions(segs))
    ensures buf[cap..] == old(buf[cap..])
  {
    hide EncodeOptions, PathOptions, PathSize, AllValid;
    ghost var header := buf[..8];
    pos := 8;
    var lastOpt: U8 := 0;
    NoOptions(segs);
    for i := 0 to |segs|
      invariant pos == 8 + PathSize(segs[..i]) <= cap && ShortSegments(segs[..i])
      invariant AllValid(PathOptions(segs[..i]))
      invariant buf[..pos] == header + EncodeOptions(PathOptions(segs[..i]))
      invariant buf[cap..] == old(buf[cap..]) && lastOpt == if i == 0 then 0 else URI_PATH
    {
      var delta := URI_PATH - lastOpt;
      ghost var before := EncodeOptions(PathOptions(segs[..i]));
      ok, pos := PutOption(buf, cap, pos, delta, segs[i]);
      PathSizeStep(segs, i);
      PathSizeGrows(segs, i + 1);
      if !ok { return; }
      assert ShortSegments(segs[..i + 1]);
      PathStep(segs, i);
      Regroup(header, before, [delta as int * 16 + |segs[i]|], segs[i]);
      lastOpt := URI_PATH;
    }
    assert segs[..|segs|] == segs;
    ok := true;
  }

  /** The payload marker and the payload. */
  method PutPayload(buf: array<U8>, cap: nat, pos: nat, payload: Bytes)
    requires pos + 1 + |payload| <= cap <= buf.Length
    modifies buf
    ensures buf[..pos + 1 + |payload|] == old(buf[..pos]) + ([MARKER] + payload)
    ensures buf[cap..] == old(buf[cap..])
  {
    ghost var before, end := buf[..], pos + 1 + |payload|;
    buf[pos] := MARKER;
    CopyIn(buf, pos + 1, payload);
    assert buf[..end] == buf[..pos + 1] + buf[pos + 1..end];
    assert buf[..pos + 1] == before[..pos] + [MARKER];
    assert buf[cap..] == buf[end..][cap - end..] && before[cap..] == before[end..][cap - end..];
  }

  /** coap_build_post: the encoded message, or -1 exactly when it cannot fit or a segment is long. */
  method BuildPost(buf: array<U8>, cap: nat, id: U16, token: Bytes, segs: seq<Bytes>, payload: Bytes)
    returns (r: int)
    requires cap <= buf.Length && |token| == 4
    modifies buf
    ensures r == -1 <==> cap < 8 || !ShortSegments(segs) || PostSize(segs, payload) > cap
    ensures r != -1 ==> r == PostSize(segs, payload) && Valid(PostMessage(id, token, segs, payload))
                        && buf[..r] == Encode(PostMessage(id, token, segs, payload))
    ensures buf[cap..] == old(buf[cap..])
  {
    hide EncodeOptions, PathOptions, PathSize, Encode, Valid, ShortSegments, AllValid, PostMessage, PostHeader;
    if cap < 8 { return -1; }
    ghost var before := buf[..];
    WriteHeader(buf, id, token);
    assert buf[cap..] == buf[8..][cap - 8..] && before[cap..] == before[8..][cap - 8..];
    var ok, pos := PutPath(buf, cap, segs);
    if !ok { return -1; }
    EncodePost(id, token, segs, payload);
    if |payload| > 0 {
      if pos + 1 + |payload| > cap { return -1; }
      PutPayload(buf, cap, pos, payload);
      pos := pos + 1 + |payload|;
    }
    r := pos;
  }

  lemma NoOptions(segs: seq<Bytes>)
    ensures PathSize(segs[..0]) == 0 && PathOptions(segs[..0]) == []
    ensures EncodeOptions([]) == [] && AllValid([])
  {
  }

  lemma Regroup(a: Bytes, b: Bytes, c: Bytes, d: Bytes)
    ensures a + b + c + d == a + (b + c + d)
  {
  }

  lemma EncodePost(id: U16, token: Bytes, segs: seq<Bytes>, payload: Bytes)
    requires |token| == 4 && AllValid(PathOptions(segs))
    ensures Valid(PostMessage(id, token, segs, payload))
    ensures Encode(PostMessage(id, token, segs, payload)) ==
      PostHeader(id, token) + EncodeOptions(PathOptions(segs))
      + if payload == [] then [] else [MARKER] + payload
  {
  }

  // ---- Parsing ---------------------------------------------------------------------------------

  /** The four header bytes are there, and as many token bytes as they announce. */
  predicate Framed(b: Bytes) {
    |b| >= 4 && 4 + b[0] % 16 <= |b|
  }

  /** What follows the token. */
  function Tail(b: Bytes): Bytes
    requires Framed(b)
  {
    b[4 + b[0] % 16..]
  }

  /** What coap_parse reports for a received message: its code and its payload, if any. */
  function Received(b: Bytes): Option<(U8, Option<Bytes>)> {
    if !Framed(b) || Walk(Tail(b)).None? then None else Some((b[1], Walk(Tail(b)).value))
  }

  /** The nibble's value as a uint16_t, and where the cursor ends up; None when bytes are missing. */
  method ReadNibbleAt(buf: array<U8>, len: nat, pos: nat, nibble: nat) returns (r: Option<(nat, nat)>)
    requires pos <= len <= buf.Length && nibble < 16
    ensures var x := ReadNibble(nibble, buf[pos..len]);
      if x.None? then r == None else r == Some((Wrapped(x.value.0), pos + x.value.1))
  {
    if nibble == 13 {
      if pos >= len { return None; }
      return Some((buf[pos] as int + 13, pos + 1));
    } else if nibble == 14 {
      if pos + 2 > len { return None; }
      return Some(((buf[pos] as int * 256 + buf[pos + 1] as int + 269) % WORD, pos + 2));
    } else if nibble == 15 {
      return None;
    }
    r := Some((nibble, pos));
  }

  /** One turn of the option loop: the cursor after the option, or None where coap_parse gives up. */
  method SkipOption(buf: array<U8>, len: nat, pos: nat) returns (next: Option<nat>)
    requires pos < len <= buf.Length
    ensures var x := ReadExtent(buf[pos..len]);
      if x.None? || pos + x.value.header + Wrapped(x.value.length) > len then next == None
      else next == Some(pos + x.value.header + Wrapped(x.value.length))
  {
    hide ReadNibble, Wrapped;
    ghost var s := buf[pos..len];
    var first := buf[pos];
    assert s[0] == first && s[1..] == buf[pos + 1..len];
    var delta := ReadNibbleAt(buf, len, pos + 1, first / 16);
    if delta.None? { return None; }
    assert s[delta.value.1 - pos..] == buf[delta.value.1..len];
    var olen := ReadNibbleAt(buf, len, delta.value.1, first % 16);
    if olen.None? { return None; }
    var end := olen.value.1 + olen.value.0;
    next := if end > len then None else Some(end);
  }

  lemma WalkNothing()
    ensures Walk([]) == Some(None)
  {
  }

  lemma WalkStep(s: Bytes)
    requires s != []
    ensures s[0] == MARKER ==> Walk(s) == Some(Some(s[1..]))
    ensures s[0] != MARKER ==>
      var x := ReadExtent(s);
      if x.None? || x.value.header + Wrapped(x.value.length) > |s| then Walk(s) == None
      else Walk(s) == Walk(s[x.value.header + Wrapped(x.value.length)..])
  {
  }

  /** coap_parse: the payload is reported as a position and a length inside the buffer. */
  method Parse(buf: array<U8>, len: nat) returns (ok: bool, code: U8, payload: Option<nat>, payloadLen: nat)
    requires len <= buf.Length
    ensures ok <==> Received(buf[..len]).Some?
    ensures ok ==> code == Received(buf[..len]).value.0
    ensures ok && Received(buf[..len]).value.1 == None ==> payload == None && payloadLen == 0
    ensures ok && Received(buf[..len]).value.1.Some? ==>
      payload.Some? && payload.value + payloadLen == len
      && Received(buf[..len]).value.1 == Some(buf[payload.value..len])
  {
    hide ReadExtent, Wrapped, Walk;
    ok, code, payload, payloadLen := false, 0, None, 0;
    if len < 4 { return; }
    var tkl := buf[0] % 16;
    code := buf[1];
    var pos: nat := 4 + tkl;
    if pos > len { return; }
    ghost var b := buf[..len];
    assert b[pos..] == buf[pos..len];
    while pos < len
      invariant 4 <= pos <= len
      invariant Walk(b[4 + b[0] % 16..]) == Walk(buf[pos..len])
    {
      ghost var s := buf[pos..len];
      WalkStep(s);
      if buf[pos] == MARKER {
        pos := pos + 1;
        assert s[1..] == buf[pos..len];
        return true, code, Some(pos), len - pos;
      }
      var next := SkipOption(buf, len, pos);
      if next.None? { return; }
      assert s[next.value - pos..] == buf[next.value..len];
      pos := next.value;
    }
    assert buf[pos..len] == [];
    WalkNothing();
    ok := true;
  }

  // ---- What the two promise together ---------------------------------------------------------

  ghost predicate InGrammar(b: Bytes) {
    exists m :: Valid(m) && Encode(m) == b
  }

  /** Wherever no 2-byte option length exceeds 65266, coap_parse accepts exactly the messages of the
      grammar, with their code and payload. */
  lemma ParserMatchesGrammar(b: Bytes)
    requires Framed(b) ==> !Wraps(Tail(b))
    ensures Received(b).Some? <==> InGrammar(b)
    ensures forall m :: Valid(m) && Encode(m) == b ==> Received(b) == Some((m.code, m.payload))
  {
    GrammarIsExact(b);
    if Framed(b) { WalkMatchesGrammar(Tail(b)); }
    assert Received(b).Some? <==> Decode(b).Some?;
  }

  /** In at most 65536 bytes the parser's verdict is wrong on exactly the datagrams whose options spell
      a length of 65536 or more. */
  lemma ParserMisreadsIff(b: Bytes)
    requires |b| <= WORD
    ensures Received(b).Some? != InGrammar(b) <==> Framed(b) && Misspelled(Tail(b))
  {
    hide Walk, DecodeOptions, Misspelled;
    GrammarIsExact(b);
    assert InGrammar(b) <==> Decode(b).Some?;
    if Framed(b) { WalkMisreadsIff(Tail(b)); }
  }

  // ---- Messages the standard calls well-formed -----------------------------------------------------

  /** Version 1, at most eight token bytes, and a payload where the marker announces one. */
  predicate Conforms(m: Message) {
    m.head / 4 == 1 && |m.token| <= 8 && m.payload != Some([])
  }

  ghost predicate Conforming(b: Bytes) {
    exists m :: Valid(m) && Conforms(m) && Encode(m) == b
  }

  /** The marker follows the options, and nothing follows the marker. */
  ghost predicate EndsInMarker(b: Bytes)
    requires Framed(b)
  {
    exists os: seq<Announced> :: AllAnnounced(os) && Tail(b) == EncodeAnnounced(os) + [MARKER]
  }

  lemma EndsInMarkerIff(b: Bytes)
    requires Framed(b)
    ensures EndsInMarker(b) <==> Walk(Tail(b)) == Some(Some([]))
  {
    hide Walk, AllAnnounced, EncodeAnnounced;
    WalkAcceptsIff(Tail(b), Some([]));
    assert EncodePayload(Some([])) == [MARKER];
    assert forall os: seq<Announced> ::
      Spells(Tail(b), os, Some([])) <==> AllAnnounced(os) && Tail(b) == EncodeAnnounced(os) + [MARKER];
  }

  /** Among the strings without a wrapping length, coap_parse accepts the conforming messages and those
      alone that break one of the three rules, each seen on the bytes. */
  lemma ConformingIff(b: Bytes)
    requires Framed(b) ==> !Wraps(Tail(b))
    ensures Conforming(b) <==>
      Received(b).Some? && b[0] / 64 == 1 && b[0] % 16 <= 8 && !EndsInMarker(b)
  {
    hide Walk, Wraps, EndsInMarker, Encode, ValidOpt;
    ParserMatchesGrammar(b);
    if Framed(b) { EndsInMarkerIff(b); }
    forall m | Valid(m) && Encode(m) == b
      ensures Framed(b) && b[0] / 16 == m.head && b[0] % 16 == |m.token| && Received(b) == Some((m.code, m.payload))
    {
      FirstByte(m);
    }
  }

  lemma FirstByte(m: Message)
    requires Valid(m)
    ensures Framed(Encode(m)) && Encode(m)[0] / 16 == m.head && Encode(m)[0] % 16 == |m.token|
  {
    hide EncodeOptions, EncodePayload, ValidOpt;
    NibblesOfByte(m.head, |m.token|);
    assert Encode(m)[0] == m.head * 16 + |m.token|;
  }

  /** So a datagram of at most 65536 bytes that is accepted conforms exactly when it has none of the
      four faults, and every conforming one is accepted. */
  lemma AcceptedConformsIff(b: Bytes)
    requires |b| <= WORD
    ensures Conforming(b) <==>
      Received(b).Some? && b[0] / 64 == 1 && b[0] % 16 <= 8 && !EndsInMarker(b) && !Misspelled(Tail(b))
  {
    hide Walk, Wraps, EndsInMarker, Misspelled, Encode, Valid, Conforms, DecodeOptions;
    if Framed(b) { MisspelledIff(Tail(b)); }
    if Framed(b) && Wraps(Tail(b)) {
      GrammarRefusesWraps(Tail(b));
      GrammarIsExact(b);
      assert Decode(b).None?;
    } else {
      ConformingIff(b);
    }
  }

  // ---- One datagram for each of the four faults -----------------------------------------------------

  lemma EmptyPayloadAccepted()
    ensures var b := [0x40, 0x44, 0, 1, 0xFF]; Received(b) == Some((0x44, Some([]))) && !Conforming(b)
  {
    var b: Bytes := [0x40, 0x44, 0, 1, 0xFF];
    assert Tail(b) == [MARKER];
    EndsInMarkerIff(b);
    AcceptedConformsIff(b);
  }

  lemma LongTokenAccepted()
    ensures var b := [0x49, 0x44, 0, 1, 1, 2, 3, 4, 5, 6, 7, 8, 9]; Received(b) == Some((0x44, None)) && !Conforming(b)
  {
    var b: Bytes := [0x49, 0x44, 0, 1, 1, 2, 3, 4, 5, 6, 7, 8, 9];
    assert Tail(b) == [];
    AcceptedConformsIff(b);
  }

  lemma OtherVersionAccepted()
    ensures var b := [0x80, 0x44, 0, 1]; Received(b) == Some((0x44, None)) && !Conforming(b)
  {
    var b: Bytes := [0x80, 0x44, 0, 1];
    assert Tail(b) == [];
    AcceptedConformsIff(b);
  }

  lemma LongOptionAccepted()
    ensures var b := [0x40, 0x44, 0, 1, 0x0E, 0xFE, 0xF3]; Received(b) == Some((0x44, None)) && !InGrammar(b)
  {
    hide Spells, Overlong, Walk;
    var b: Bytes := [0x40, 0x44, 0, 1, 0x0E, 0xFE, 0xF3];
    var os := [Announced(0, WORD, [])];
    assert Tail(b) == [0x0E, 0xFE, 0xF3];
    LongOptionSpelled(os);
    WalkSpelled(Tail(b), os, None);
    assert Misspelled(Tail(b));
    ParserMisreadsIff(b);
  }

  lemma LongOptionSpelled(os: seq<Announced>)
    requires os == [Announced(0, WORD, [])]
    ensures Spells([0x0E, 0xFE, 0xF3], os, None) && Overlong(os)
  {
    assert os[0].length >= WORD;
    assert OptHeader(0, WORD) == [0x0E, 0xFE, 0xF3];
    assert os[1..] == [] && EncodeAnnounced(os) == OptHeader(0, WORD) + [] + [];
  }

  lemma {:induction false} ShortOptionsDoNotWrap(os: seq<Opt>, p: Option<Bytes>)
    requires AllValid(os) && forall i :: 0 <= i < |os| ==> |os[i].value| < WORD
    ensures !Wraps(EncodeOptions(os) + EncodePayload(p))
  {
    hide EncodeOpt, ReadExtent, ValidOpt;
    if os == [] {
      assert EncodeOptions(os) + EncodePayload(p) == EncodePayload(p);
    } else {
      ShortOptionsDoNotWrap(os[1..], p);
      var rest := EncodeOptions(os[1..]) + EncodePayload(p);
      assert EncodeOptions(os) + EncodePayload(p) == EncodeOpt(os[0]) + rest;
      ExtentRoundTrip(os[0], rest);
    }
  }

  /** Any well-formed message whose option values are shorter than 65536 bytes is received whole. */
  lemma ReceivesEncoded(m: Message)
    requires Valid(m) && forall i :: 0 <= i < |m.options| ==> |m.options[i].value| < WORD
    ensures Received(Encode(m)) == Some((m.code, m.payload))
  {
    hide EncodeOptions, EncodePayload, Wraps, Decode, Received;
    var b := Encode(m);
    var tail := EncodeOptions(m.options) + EncodePayload(m.payload);
    DecodeEncode(m);
    assert b == [m.head * 16 + |m.token|, m.code, Hi(m.id), Lo(m.id)] + m.token + tail;
    assert b[4 + |m.token|..] == tail;
    ShortOptionsDoNotWrap(m.options, m.payload);
    ParserMatchesGrammar(b);
  }

  /** A request byte by byte: 0x44 for a confirmable message of version 1 with four token bytes, POST, the id,
      the token, the path, and the payload after 0xFF. */
  lemma PostSpelled(id: U16, token: Bytes, segs: seq<Bytes>, payload: Bytes)
    requires |token| == 4 && ShortSegments(segs)
    ensures Valid(PostMessage(id, token, segs, payload)) && AllValid(PathOptions(segs))
    ensures Encode(PostMessage(id, token, segs, payload)) ==
      [0x44, 0x02, id / 256, id % 256] + token + EncodeOptions(PathOptions(segs))
      + if payload == [] then [] else [0xFF] + payload
    ensures |Encode(PostMessage(id, token, segs, payload))| == PostSize(segs, payload)
  {
    hide EncodeOptions, PathOptions, PathSize;
    PathLength(segs);
    EncodePost(id, token, segs, payload);
  }

  /** Its path: each segment after a byte with its length, the first with option number 11 in the upper half. */
  lemma PathSpelled(segs: seq<Bytes>, seg: Bytes)
    requires ShortSegments(segs) && |seg| < 13
    ensures AllValid(PathOptions([])) && EncodeOptions(PathOptions([])) == []
    ensures AllValid(PathOptions(segs)) && AllValid(PathOptions(segs + [seg]))
    ensures EncodeOptions(PathOptions(segs + [seg])) ==
      EncodeOptions(PathOptions(segs)) + [(if segs == [] then 0xB0 else 0x00) + |seg|] + seg
  {
    hide EncodeOptions, PathOptions;
    var all := segs + [seg];
    assert all[..|segs|] == segs && all[..|segs| + 1] == all;
    PathStep(all, |segs|);
    NoOptions(segs);
    assert segs[..0] == [];
  }

  lemma {:induction false} PathLength(segs: seq<Bytes>)
    requires ShortSegments(segs)
    ensures AllValid(PathOptions(segs)) && |EncodeOptions(PathOptions(segs))| == PathSize(segs)
  {
    if segs == [] {
      assert PathOptions(segs) == [];
    } else {
      hide EncodeOptions, PathOptions;
      var n := |segs| - 1;
      PathLength(segs[..n]);
      assert segs == segs[..n] + [segs[n]];
      PathSpelled(segs[..n], segs[n]);
    }
  }

  lemma {:induction false} NumbersStay(os: seq<Opt>, last: nat)
    requires forall i :: 0 <= i < |os| ==> os[i].delta == 0
    ensures |OptionNumbers(os, last)| == |os|
    ensures forall i :: 0 <= i < |os| ==> OptionNumbers(os, last)[i] == last
  {
    if os != [] { NumbersStay(os[1..], last); }
  }

  /** A built request is received with code 0.02 and exactly its payload, and its options are the
      path segments in order, each under number 11. */
  lemma PostRoundTrip(id: U16, token: Bytes, segs: seq<Bytes>, payload: Bytes)
    requires |token| == 4 && ShortSegments(segs)
    ensures var m := PostMessage(id, token, segs, payload);
      Valid(m) && Decode(Encode(m)) == Some(m)
      && m.head == 4 && m.code == 0x02 && m.id == id && m.token == token
      && m.payload == (if payload == [] then None else Some(payload))
      && Received(Encode(m)) == Some((0x02, if payload == [] then None else Some(payload)))
      && |m.options| == |OptionNumbers(m.options, 0)| == |segs|
      && forall i :: 0 <= i < |segs| ==> m.options[i].value == segs[i] && OptionNumbers(m.options, 0)[i] == 11
  {
    var m := PostMessage(id, token, segs, payload);
    DecodeEncode(m);
    ReceivesEncoded(m);
    if segs != [] {
      NumbersStay(m.options[1..], 11);
    }
  }
}
