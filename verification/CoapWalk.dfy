/** The walk coap_parse takes over a message's options, their lengths held in 16 bits, and exactly
    which strings it misreads. */
module CoapWalk {
  import opened CTypes
  import opened CoapFormat

  const WORD: nat := 0x1_0000

  /** The value length as the firmware's uint16_t holds it. */
  function Wrapped(length: nat): nat {
    length % WORD
  }

  /** What coap_parse makes of the bytes after the token: rejection, or the payload if any. */
  function Walk(b: Bytes): (r: Option<Option<Bytes>>)
    ensures r.Some? && r.value.Some? ==> |r.value.value| < |b| && b[|b| - |r.value.value|..] == r.value.value
    decreases |b|
  {
    if b == [] then Some(None)
    else if b[0] == MARKER then Some(Some(b[1..]))
    else
      var x := ReadExtent(b);
      if x.None? || x.value.header + Wrapped(x.value.length) > |b| then None
      else Walk(b[x.value.header + Wrapped(x.value.length)..])
  }

  /** Some option header the walk reaches carries a 2-byte extended length above 65266. */
  predicate Wraps(b: Bytes)
    decreases |b|
  {
    b != [] && b[0] != MARKER && ReadExtent(b).Some?
    && var x := ReadExtent(b).value;
       x.length >= WORD || (x.header + x.length <= |b| && Wraps(b[x.header + x.length..]))
  }

  /** Without such a length the walk and the grammar agree, whatever the bytes. */
  lemma {:induction false} WalkMatchesGrammar(b: Bytes)
    requires !Wraps(b)
    ensures Walk(b).Some? <==> DecodeOptions(b).Some?
    ensures Walk(b).Some? ==> Walk(b).value == DecodeOptions(b).value.1
    decreases |b|
  {
    hide ReadExtent;
    if b != [] && b[0] != MARKER && ReadExtent(b).Some? {
      var x := ReadExtent(b).value;
      if x.header + x.length <= |b| {
        WalkMatchesGrammar(b[x.header + x.length..]);
      }
    }
  }

  /** In a buffer of at most 65536 bytes the grammar refuses every such length. */
  lemma {:induction false} GrammarRefusesWraps(b: Bytes)
    requires Wraps(b) && |b| <= WORD
    ensures DecodeOptions(b).None?
    decreases |b|
  {
    var x := ReadExtent(b).value;
    if x.length < WORD {
      GrammarRefusesWraps(b[x.header + x.length..]);
    }
  }

  // ---- The strings the walk accepts --------------------------------------------------------------

  /** An option as its header announces it: the value that follows is as long as a uint16_t makes of
      the announced length. */
  datatype Announced = Announced(delta: nat, length: nat, value: Bytes)

  predicate ValidAnnounced(o: Announced) {
    o.delta <= MAX_EXTENDED && o.length <= MAX_EXTENDED && |o.value| == Wrapped(o.length)
  }

  predicate AllAnnounced(os: seq<Announced>) {
    forall i :: 0 <= i < |os| ==> ValidAnnounced(os[i])
  }

  function EncodeAnnounced(os: seq<Announced>): Bytes
    requires AllAnnounced(os)
  {
    if os == [] then [] else OptHeader(os[0].delta, os[0].length) + os[0].value + EncodeAnnounced(os[1..])
  }

  /** The bytes are these announced options and this payload. */
  predicate Spells(b: Bytes, os: seq<Announced>, p: Option<Bytes>) {
    AllAnnounced(os) && b == EncodeAnnounced(os) + EncodePayload(p)
  }

  /** Some option announces 65536 bytes or more. */
  predicate Overlong(os: seq<Announced>) {
    exists i :: 0 <= i < |os| && os[i].length >= WORD
  }

  lemma WalkPayload(p: Option<Bytes>)
    ensures Walk(EncodePayload(p)) == Some(p) && !Wraps(EncodePayload(p))
  {
    if p.Some? { assert EncodePayload(p)[1..] == p.value; }
  }

  /** The walk steps over an announced option; it meets a wrapping length there or further on. */
  lemma WalkOption(o: Announced, rest: Bytes)
    requires ValidAnnounced(o)
    ensures var b := OptHeader(o.delta, o.length) + o.value + rest;
      Walk(b) == Walk(rest) && (Wraps(b) <==> o.length >= WORD || Wraps(rest))
  {
    hide ReadExtent, OptHeader, Walk, Wraps;
    var h := OptHeader(o.delta, o.length);
    var b := h + o.value + rest;
    assert b == h + (o.value + rest);
    HeaderRoundTrip(o.delta, o.length, o.value + rest);
    assert b[|h| + |o.value|..] == rest;
    WalkExtent(b, Extent(o.delta, |h|, o.length));
    if o.length < WORD { assert |o.value| == o.length; }
  }

  /** One turn, in terms of the extent read. */
  lemma WalkExtent(b: Bytes, x: Extent)
    requires b != [] && b[0] != MARKER && ReadExtent(b) == Some(x) && x.header + Wrapped(x.length) <= |b|
    ensures Walk(b) == Walk(b[x.header + Wrapped(x.length)..])
    ensures Wraps(b) <==> x.length >= WORD || (x.header + x.length <= |b| && Wraps(b[x.header + x.length..]))
  {
    hide ReadExtent, Wrapped;
  }

  lemma SpellsCons(o: Announced, os: seq<Announced>, p: Option<Bytes>)
    requires ValidAnnounced(o) && AllAnnounced(os)
    ensures AllAnnounced([o] + os)
    ensures EncodeAnnounced([o] + os) + EncodePayload(p)
      == OptHeader(o.delta, o.length) + o.value + (EncodeAnnounced(os) + EncodePayload(p))
  {
    hide OptHeader, EncodePayload;
    assert ([o] + os)[1..] == os;
  }

  /** What is spelled is accepted, and an overlong option in it is one the walk meets. */
  lemma {:induction false} WalkSpelled(b: Bytes, os: seq<Announced>, p: Option<Bytes>)
    requires Spells(b, os, p)
    ensures Walk(b) == Some(p) && (Wraps(b) <==> Overlong(os))
    decreases |os|
  {
    hide Walk, Wraps, OptHeader, EncodePayload, Overlong, ValidAnnounced;
    if os == [] {
      assert b == EncodePayload(p);
      WalkPayload(p);
      NotOverlong();
    } else {
      var rest := EncodeAnnounced(os[1..]) + EncodePayload(p);
      SpellsCons(os[0], os[1..], p);
      assert [os[0]] + os[1..] == os;
      WalkOption(os[0], rest);
      WalkSpelled(rest, os[1..], p);
      OverlongHead(os);
    }
  }

  lemma NotOverlong()
    ensures !Overlong([])
  {
  }

  lemma OverlongHead(os: seq<Announced>)
    requires os != []
    ensures Overlong(os) <==> os[0].length >= WORD || Overlong(os[1..])
  {
    if i :| 0 <= i < |os| && os[i].length >= WORD {
      if i > 0 { assert os[1..][i - 1] == os[i]; }
    }
    if Overlong(os[1..]) {
      var i :| 0 <= i < |os| - 1 && os[1..][i].length >= WORD;
      assert os[i + 1] == os[1..][i];
    }
  }

  /** What is accepted is spelled. */
  lemma {:induction false} SpellWalked(b: Bytes) returns (os: seq<Announced>)
    requires Walk(b).Some?
    ensures Spells(b, os, Walk(b).value)
    decreases |b|
  {
    os := [];
    if b != [] && b[0] != MARKER {
      hide EncodePayload, EncodeAnnounced, AllAnnounced;
      var o, rest := PeelAnnounced(b);
      var more := SpellWalked(rest);
      os := [o] + more;
      SpellsCons(o, more, Walk(rest).value);
    } else if b != [] {
      assert b == [MARKER] + b[1..];
    }
  }

  lemma PeelAnnounced(b: Bytes) returns (o: Announced, rest: Bytes)
    requires Walk(b).Some? && b != [] && b[0] != MARKER
    ensures ValidAnnounced(o) && b == OptHeader(o.delta, o.length) + o.value + rest
    ensures |rest| < |b| && Walk(rest) == Walk(b)
  {
    hide ReadExtent, OptHeader;
    var x := ReadExtent(b).value;
    var next := x.header + Wrapped(x.length);
    HeaderReads(b);
    o, rest := Announced(x.delta, x.length, b[x.header..next]), b[next..];
    assert b == b[..x.header] + b[x.header..next] + b[next..];
  }

  /** Acceptance, payload included, by the bytes alone: announced options, then the payload. */
  lemma WalkAcceptsIff(b: Bytes, p: Option<Bytes>)
    ensures Walk(b) == Some(p) <==> exists os: seq<Announced> :: Spells(b, os, p)
  {
    hide Walk, Spells;
    if Walk(b) == Some(p) { var os := SpellWalked(b); }
    if os: seq<Announced> :| Spells(b, os, p) { WalkSpelled(b, os, p); }
  }

  /** The bytes spell a list in which some option announces 65536 bytes or more. */
  ghost predicate Misspelled(b: Bytes) {
    exists os: seq<Announced>, p: Option<Bytes> :: Spells(b, os, p) && Overlong(os)
  }

  lemma MisspelledIff(b: Bytes)
    ensures Misspelled(b) <==> Walk(b).Some? && Wraps(b)
  {
    hide Walk, Spells, Overlong, Wraps;
    if os: seq<Announced>, p: Option<Bytes> :| Spells(b, os, p) && Overlong(os) { WalkSpelled(b, os, p); }
    if Walk(b).Some? && Wraps(b) {
      var os := SpellWalked(b);
      WalkSpelled(b, os, Walk(b).value);
    }
  }

  /** In a buffer of at most 65536 bytes the walk and the grammar differ on exactly these strings. */
  lemma WalkMisreadsIff(b: Bytes)
    requires |b| <= WORD
    ensures Walk(b).Some? != DecodeOptions(b).Some? <==> Misspelled(b)
    ensures !Misspelled(b) && Walk(b).Some? ==> Walk(b).value == DecodeOptions(b).value.1
  {
    hide Walk, Wraps, Misspelled, DecodeOptions;
    MisspelledIff(b);
    if Wraps(b) { GrammarRefusesWraps(b); } else { WalkMatchesGrammar(b); }
  }
}
