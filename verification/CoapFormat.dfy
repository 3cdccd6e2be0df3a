/** The CoAP message format of section 3 and section 3.1 of RFC 7252, over unbounded integers. */
module CoapFormat {
  import opened CTypes

  type Bytes = seq<U8>

  const URI_PATH: U8 := 11
  const POST: U8 := 2
  const MARKER: U8 := 0xFF

  /** One option: the difference to the previous option number, and its value. */
  datatype Opt = Opt(delta: nat, value: Bytes)

  /** `head` is the upper nibble of the first byte (version and type). */
  datatype Message = Message(head: nat, code: U8, id: U16, token: Bytes, options: seq<Opt>, payload: Option<Bytes>)

  const MAX_EXTENDED: nat := 269 + 0xFFFF

  predicate ValidOpt(o: Opt) {
    o.delta <= MAX_EXTENDED && |o.value| <= MAX_EXTENDED
  }

  predicate AllValid(os: seq<Opt>) {
    forall i :: 0 <= i < |os| ==> ValidOpt(os[i])
  }

  predicate Valid(m: Message) {
    m.head < 16 && |m.token| < 16 && AllValid(m.options)
  }

  /** The nibble that announces n, and the bytes that extend it. */
  function Nibble(n: nat): (r: nat)
    ensures r <= 14
  {
    if n < 13 then n else if n < 269 then 13 else 14
  }

  function Extension(n: nat): Bytes
    requires n <= MAX_EXTENDED
  {
    if n < 13 then [] else if n < 269 then [n - 13] else [Hi(n - 269), Lo(n - 269)]
  }

  /** An option header: the first byte and whatever extends its two nibbles. */
  function OptHeader(delta: nat, length: nat): (h: Bytes)
    requires delta <= MAX_EXTENDED && length <= MAX_EXTENDED
    ensures h != []
  {
    [Nibble(delta) * 16 + Nibble(length)] + Extension(delta) + Extension(length)
  }

  function EncodeOpt(o: Opt): Bytes
    requires ValidOpt(o)
  {
    OptHeader(o.delta, |o.value|) + o.value
  }

  function EncodeOptions(os: seq<Opt>): Bytes
    requires AllValid(os)
  {
    if os == [] then [] else EncodeOpt(os[0]) + EncodeOptions(os[1..])
  }

  function EncodePayload(p: Option<Bytes>): Bytes {
    match p
    case None => []
    case Some(b) => [MARKER] + b
  }

  function Encode(m: Message): Bytes
    requires Valid(m)
  {
    [m.head * 16 + |m.token|, m.code, Hi(m.id), Lo(m.id)] + m.token
    + EncodeOptions(m.options) + EncodePayload(m.payload)
  }

  /** An option header by the numbers: 13 announces a byte more, 14 two, after 13 and 269 are taken off. */
  lemma OptHeaderSpelled(delta: nat, length: nat)
    requires delta <= 65804 && length <= 65804
    ensures MAX_EXTENDED == 65804
    ensures var h := OptHeader(delta, length);
      var k := if delta < 13 then 1 else if delta < 269 then 2 else 3;
      && |h| == k + (if length < 13 then 0 else if length < 269 then 1 else 2)
      && h[0] / 16 == (if delta < 13 then delta else if delta < 269 then 13 else 14)
      && h[0] % 16 == (if length < 13 then length else if length < 269 then 13 else 14)
      && (13 <= delta < 269 ==> h[1] == delta - 13)
      && (269 <= delta ==> (h[1] as int) * 256 + h[2] as int == delta - 269)
      && (13 <= length < 269 ==> h[k] == length - 13)
      && (269 <= length ==> (h[k] as int) * 256 + h[k + 1] as int == length - 269)
  {
    NibblesOfByte(Nibble(delta), Nibble(length));
  }

  /** A message by the numbers: four bytes, the token, the options, and the payload after 0xFF. */
  lemma MessageSpelled(m: Message)
    requires Valid(m)
    ensures var b := Encode(m);
      && |b| >= 4 + |m.token| && b[0] / 16 == m.head && b[0] % 16 == |m.token| && b[1] == m.code
      && (b[2] as int) * 256 + b[3] as int == m.id && b[4..4 + |m.token|] == m.token
      && b[4 + |m.token|..] == EncodeOptions(m.options) + if m.payload == None then [] else [0xFF] + m.payload.value
  {
    hide EncodeOptions, ValidOpt;
    NibblesOfByte(m.head, |m.token|);
    WordOfBytes(m.id, 0, 0);
    var tail := EncodeOptions(m.options) + EncodePayload(m.payload);
    assert Encode(m) == [m.head * 16 + |m.token|, m.code, Hi(m.id), Lo(m.id)] + m.token + tail;
  }

  // ---- Reading back ---------------------------------------------------------------------------

  /** The value a nibble stands for at the head of b, and the number of bytes that extend it. */
  function ReadNibble(nibble: nat, b: Bytes): (r: Option<(nat, nat)>)
    ensures r.Some? ==> r.value.1 <= |b| && r.value.0 <= MAX_EXTENDED
  {
    if nibble < 13 then Some((nibble, 0))
    else if nibble == 13 && |b| >= 1 then Some((b[0] as int + 13, 1))
    else if nibble == 14 && |b| >= 2 then Some((Word(b[0], b[1]) as int + 269, 2))
    else None
  }

  /** The lengths of the option header and of its value, and the delta: the option's extent. */
  datatype Extent = Extent(delta: nat, header: nat, length: nat)

  function ReadExtent(b: Bytes): (r: Option<Extent>)
    requires b != []
    ensures r.Some? ==> 1 <= r.value.header <= |b| && r.value.length <= MAX_EXTENDED && r.value.delta <= MAX_EXTENDED
  {
    var d := ReadNibble(b[0] / 16, b[1..]);
    if d.None? then None else
    var l := ReadNibble(b[0] % 16, b[1 + d.value.1..]);
    if l.None? then None else Some(Extent(d.value.0, 1 + d.value.1 + l.value.1, l.value.0))
  }

  /** Options up to the end or the payload marker. */
  function DecodeOptions(b: Bytes): (r: Option<(seq<Opt>, Option<Bytes>)>)
    ensures r.Some? ==> AllValid(r.value.0)
    decreases |b|
  {
    if b == [] then Some(([], None))
    else if b[0] == MARKER then Some(([], Some(b[1..])))
    else
      var x := ReadExtent(b);
      if x.None? || x.value.header + x.value.length > |b| then None else
      var next := x.value.header + x.value.length;
      var rest := DecodeOptions(b[next..]);
      if rest.None? then None
      else Some(([Opt(x.value.delta, b[x.value.header..next])] + rest.value.0, rest.value.1))
  }

  function Decode(b: Bytes): (r: Option<Message>)
    ensures r.Some? ==> Valid(r.value)
  {
    if |b| < 4 || 4 + b[0] % 16 > |b| then None else
    var start := 4 + b[0] % 16;
    var tail := DecodeOptions(b[start..]);
    if tail.None? then None
    else Some(Message(b[0] / 16, b[1], Word(b[2], b[3]), b[4..start], tail.value.0, tail.value.1))
  }

  // ---- The grammar is exact -------------------------------------------------------------------

  lemma NibbleRoundTrip(n: nat, rest: Bytes)
    requires n <= MAX_EXTENDED
    ensures ReadNibble(Nibble(n), Extension(n) + rest) == Some((n, |Extension(n)|))
  {
  }

  lemma NibbleReads(nibble: nat, b: Bytes)
    requires nibble < 16 && ReadNibble(nibble, b).Some?
    ensures var r := ReadNibble(nibble, b).value;
      nibble == Nibble(r.0) && b[..r.1] == Extension(r.0)
  {
  }

  lemma NibblesOfByte(hi: nat, lo: nat)
    requires lo < 16
    ensures (hi * 16 + lo) / 16 == hi && (hi * 16 + lo) % 16 == lo
  {
  }

  lemma HeaderRoundTrip(delta: nat, length: nat, rest: Bytes)
    requires delta <= MAX_EXTENDED && length <= MAX_EXTENDED
    ensures var h := OptHeader(delta, length);
      (h + rest)[0] != MARKER && ReadExtent(h + rest) == Some(Extent(delta, |h|, length))
  {
    hide Extension, ReadNibble, Nibble;
    var d, l := Extension(delta), Extension(length);
    var b := OptHeader(delta, length) + rest;
    assert b[1..] == d + (l + rest);
    assert b[1 + |d|..] == l + rest;
    NibblesOfByte(Nibble(delta), Nibble(length));
    NibbleRoundTrip(delta, l + rest);
    NibbleRoundTrip(length, rest);
  }

  lemma ExtentRoundTrip(o: Opt, rest: Bytes)
    requires ValidOpt(o)
    ensures var b := EncodeOpt(o) + rest;
      var h := |OptHeader(o.delta, |o.value|)|;
      |b| == h + |o.value| + |rest| && b[0] != MARKER && ReadExtent(b) == Some(Extent(o.delta, h, |o.value|))
      && b[h..h + |o.value|] == o.value && b[h + |o.value|..] == rest
  {
    hide OptHeader, ReadExtent;
    var h := OptHeader(o.delta, |o.value|);
    assert EncodeOpt(o) + rest == h + (o.value + rest);
    HeaderRoundTrip(o.delta, |o.value|, o.value + rest);
  }

  lemma OptionRoundTrip(o: Opt, rest: Bytes)
    requires ValidOpt(o) && DecodeOptions(rest).Some?
    ensures var r := DecodeOptions(rest).value;
      DecodeOptions(EncodeOpt(o) + rest) == Some(([o] + r.0, r.1))
  {
    hide EncodeOpt, ReadExtent, Extension;
    ExtentRoundTrip(o, rest);
  }

  lemma ConsOption(o: Opt, os: seq<Opt>)
    requires ValidOpt(o) && AllValid(os)
    ensures AllValid([o] + os)
    ensures EncodeOptions([o] + os) == EncodeOpt(o) + EncodeOptions(os)
  {
    assert ([o] + os)[1..] == os;
  }

  lemma PayloadRoundTrip(p: Option<Bytes>)
    ensures DecodeOptions(EncodePayload(p)) == Some(([], p))
  {
    if p.Some? { assert EncodePayload(p)[1..] == p.value; }
  }

  lemma {:induction false} OptionsRoundTrip(os: seq<Opt>, p: Option<Bytes>)
    requires AllValid(os)
    ensures DecodeOptions(EncodeOptions(os) + EncodePayload(p)) == Some((os, p))
  {
    hide EncodeOpt, ValidOpt, DecodeOptions, EncodePayload;
    if os == [] {
      assert EncodeOptions(os) + EncodePayload(p) == EncodePayload(p);
      PayloadRoundTrip(p);
    } else {
      hide EncodeOptions;
      OptionsRoundTrip(os[1..], p);
      assert os == [os[0]] + os[1..];
      ConsOption(os[0], os[1..]);
      var rest := EncodeOptions(os[1..]) + EncodePayload(p);
      OptionRoundTrip(os[0], rest);
      assert EncodeOptions(os) + EncodePayload(p) == EncodeOpt(os[0]) + rest;
    }
  }

  /** Every message is read back as it was written. */
  lemma DecodeEncode(m: Message)
    requires Valid(m)
    ensures Decode(Encode(m)) == Some(m)
  {
    hide EncodeOptions, EncodePayload, DecodeOptions, ValidOpt;
    var tail := EncodeOptions(m.options) + EncodePayload(m.payload);
    WordOfBytes(m.id, 0, 0);
    var b := Encode(m);
    assert b == [m.head * 16 + |m.token|, m.code, Hi(m.id), Lo(m.id)] + m.token + tail;
    assert b[4..4 + |m.token|] == m.token;
    assert b[4 + |m.token|..] == tail;
    OptionsRoundTrip(m.options, m.payload);
  }

  lemma HeaderReads(b: Bytes)
    requires b != [] && ReadExtent(b).Some?
    ensures var x := ReadExtent(b).value;
      b[..x.header] == OptHeader(x.delta, x.length)
  {
    var x := ReadExtent(b).value;
    var d := ReadNibble(b[0] / 16, b[1..]).value;
    NibbleReads(b[0] / 16, b[1..]);
    NibbleReads(b[0] % 16, b[1 + d.1..]);
    assert b[..x.header] == [b[0]] + b[1..][..d.1] + b[1 + d.1..][..x.header - 1 - d.1];
  }

  lemma ExtentReads(b: Bytes)
    requires b != [] && ReadExtent(b).Some? && ReadExtent(b).value.header + ReadExtent(b).value.length <= |b|
    ensures var x := ReadExtent(b).value;
      var o := Opt(x.delta, b[x.header..x.header + x.length]);
      ValidOpt(o) && b[..x.header + x.length] == EncodeOpt(o)
  {
    hide OptHeader, ReadExtent;
    var x := ReadExtent(b).value;
    HeaderReads(b);
    assert b[..x.header + x.length] == b[..x.header] + b[x.header..x.header + x.length];
  }

  lemma PeelOption(b: Bytes) returns (o: Opt, rest: Bytes)
    requires DecodeOptions(b).Some? && b != [] && b[0] != MARKER
    ensures ValidOpt(o) && b == EncodeOpt(o) + rest && |rest| < |b| && DecodeOptions(rest).Some?
    ensures DecodeOptions(b).value == ([o] + DecodeOptions(rest).value.0, DecodeOptions(rest).value.1)
  {
    hide EncodeOpt, ValidOpt;
    var x := ReadExtent(b).value;
    var next := x.header + x.length;
    ExtentReads(b);
    o, rest := Opt(x.delta, b[x.header..next]), b[next..];
    assert b == b[..next] + rest;
  }

  lemma NoOptionsRead(b: Bytes)
    requires b == [] || b[0] == MARKER
    ensures var r := DecodeOptions(b);
      r.Some? && r.value.0 == [] && b == EncodePayload(r.value.1)
  {
    if b != [] { assert b == [MARKER] + b[1..]; }
  }

  lemma {:induction false} OptionsRead(b: Bytes)
    requires DecodeOptions(b).Some?
    ensures b == EncodeOptions(DecodeOptions(b).value.0) + EncodePayload(DecodeOptions(b).value.1)
    decreases |b|
  {
    hide EncodeOpt, ValidOpt, DecodeOptions, EncodePayload;
    if b == [] || b[0] == MARKER {
      NoOptionsRead(b);
    } else {
      hide EncodeOptions;
      var o, rest := PeelOption(b);
      OptionsRead(rest);
      var r := DecodeOptions(rest).value;
      ConsOption(o, r.0);
      assert b == EncodeOpt(o) + (EncodeOptions(r.0) + EncodePayload(r.1));
    }
  }

  /** Whatever is accepted is the encoding of the message read: the grammar has no other strings. */
  lemma EncodeDecode(b: Bytes)
    requires Decode(b).Some?
    ensures Encode(Decode(b).value) == b
  {
    hide DecodeOptions, EncodeOptions, EncodePayload, ValidOpt, Encode, Hi, Lo;
    var start := 4 + b[0] % 16;
    OptionsRead(b[start..]);
    WordOfBytes(0, b[2], b[3]);
    Reassemble(b, start, Decode(b).value);
  }

  lemma Reassemble(b: Bytes, start: nat, m: Message)
    requires Valid(m) && 4 <= start <= |b| && m.token == b[4..start]
    requires m.head * 16 + |m.token| == b[0] && m.code == b[1] && Hi(m.id) == b[2] && Lo(m.id) == b[3]
    requires b[start..] == EncodeOptions(m.options) + EncodePayload(m.payload)
    ensures Encode(m) == b
  {
    hide EncodeOptions, EncodePayload, ValidOpt, Hi, Lo;
    var first: Bytes := [m.head * 16 + |m.token|, m.code, Hi(m.id), Lo(m.id)];
    assert first == b[..4];
    assert b == (first + m.token) + b[start..];
  }

  lemma GrammarIsExact(b: Bytes)
    ensures Decode(b).Some? <==> exists m :: Valid(m) && Encode(m) == b
    ensures forall m :: Valid(m) && Encode(m) == b ==> Decode(b) == Some(m)
  {
    if Decode(b).Some? {
      EncodeDecode(b);
    }
    forall m | Valid(m) && Encode(m) == b ensures Decode(b) == Some(m) {
      DecodeEncode(m);
    }
  }

  /** Option numbers: each delta adds to the number before it. */
  function OptionNumbers(os: seq<Opt>, last: nat): seq<nat> {
    if os == [] then [] else [last + os[0].delta] + OptionNumbers(os[1..], last + os[0].delta)
  }
}
