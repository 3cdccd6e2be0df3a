/** The second TLV walker, parse_dataset_metadata, and where it agrees with the search of
    thread_meshcop.cpp. */
module Metadata {
  import opened CTypes
  import opened Hex
  import Tlv

  const CHANNEL: U8 := 0
  const PANID: U8 := 1
  const EXT_PANID: U8 := 2
  const NETWORK_NAME: U8 := 3

  /** The static record: -1 and "" mean not known. */
  datatype Creds = Creds(has: bool, dataset: Bytes, networkName: string, channel: int, panId: int,
                         extPanId: string, host: string, fetchedAt: int)

  const NO_CREDS := Creds(false, [], "", -1, -1, "", "", 0)

  datatype Entry = Entry(typ: U8, value: Bytes)

  /** The entry at the front of d, its length always one byte. */
  function Head(d: Bytes): Option<Entry> {
    if |d| < 2 || 2 + d[1] as int > |d| then None else Some(Entry(d[0], d[2..2 + d[1] as int]))
  }

  /** The entries walked until one is truncated. */
  function Entries(d: Bytes): seq<Entry>
    decreases |d|
  {
    var h := Head(d);
    if h.None? then [] else [h.value] + Entries(d[2 + |h.value.value|..])
  }

  function Chars(v: Bytes): string {
    seq(|v|, i requires 0 <= i < |v| => v[i] as char)
  }

  /** What one entry sets. */
  function Note(c: Creds, e: Entry): Creds {
    var v := e.value;
    if e.typ == CHANNEL && |v| >= 3 then c.(channel := Word(v[1], v[2]))
    else if e.typ == PANID && |v| >= 2 then c.(panId := Word(v[0], v[1]))
    else if e.typ == EXT_PANID && |v| == 8 then c.(extPanId := HexOf(v))
    else if e.typ == NETWORK_NAME then c.(networkName := Chars(v))
    else c
  }

  function NoteAll(c: Creds, es: seq<Entry>): Creds
    decreases |es|
  {
    if es == [] then c else NoteAll(Note(c, es[0]), es[1..])
  }

  lemma EntriesStep(d: Bytes, c: Creds)
    ensures NoteAll(c, Entries(d)) ==
      if Head(d).None? then c
      else NoteAll(Note(c, Head(d).value), Entries(d[2 + |Head(d).value.value|..]))
  {
    if Head(d).Some? {
      assert Entries(d)[1..] == Entries(d[2 + |Head(d).value.value|..]);
    }
  }

  /** parse_dataset_metadata: each complete entry in turn updates the record. */
  method ParseDatasetMetadata(data: Bytes, c: Creds) returns (r: Creds)
    ensures r == NoteAll(c, Entries(data))
    ensures c.channel == c.panId == -1 && c.extPanId == c.networkName == "" ==> Describes(Entries(data), r)
  {
    hide Entries, NoteAll;
    r := c;
    var i: nat := 0;
    assert data[0..] == data;
    while i + 2 <= |data|
      invariant i <= |data| && NoteAll(c, Entries(data)) == NoteAll(r, Entries(data[i..]))
      decreases |data| - i
    {
      EntriesStep(data[i..], r);
      var typ := data[i];
      var length: nat := data[i + 1];
      var value := i + 2;
      if value + length > |data| { break; }
      var v := data[value..value + length];
      assert data[i..][2..2 + length] == v && data[i..][2 + length..] == data[value + length..];
      assert Head(data[i..]) == Some(Entry(typ, v));
      if typ == CHANNEL {
        if length >= 3 { r := r.(channel := Word(v[1], v[2])); }
      } else if typ == PANID {
        if length >= 2 { r := r.(panId := Word(v[0], v[1])); }
      } else if typ == EXT_PANID {
        if length == 8 {
          var hex := BytesToHex(v);
          r := r.(extPanId := hex);
        }
      } else if typ == NETWORK_NAME {
        r := r.(networkName := Chars(v));
      }
      i := value + length;
    }
    EntriesStep(data[i..], r);
    if c.channel == c.panId == -1 && c.extPanId == c.networkName == "" { NotesDescribe(c, Entries(data)); }
  }

  // ---- The last entry decides ------------------------------------------------------------------

  /** i is the last PAN ID entry long enough to hold one. */
  ghost predicate LastPanIdAt(es: seq<Entry>, i: int) {
    0 <= i < |es| && es[i].typ == PANID && |es[i].value| >= 2
    && forall j :: i < j < |es| && es[j].typ == PANID ==> |es[j].value| < 2
  }

  ghost predicate NoPanId(es: seq<Entry>) {
    forall i :: 0 <= i < |es| && es[i].typ == PANID ==> |es[i].value| < 2
  }

  /** Nothing but such an entry touches the PAN ID. */
  lemma {:induction false} PanIdUntouched(c: Creds, es: seq<Entry>)
    requires NoPanId(es)
    ensures NoteAll(c, es).panId == c.panId
    decreases |es|
  {
    if es != [] {
      assert es[0] in es;
      PanIdUntouched(Note(c, es[0]), es[1..]);
    }
  }

  /** The PAN ID comes from the last of them. */
  lemma {:induction false} LastPanIdWins(c: Creds, es: seq<Entry>, i: nat)
    requires LastPanIdAt(es, i)
    ensures NoteAll(c, es).panId == Word(es[i].value[0], es[i].value[1])
    decreases i
  {
    if i == 0 {
      PanIdUntouched(Note(c, es[0]), es[1..]);
    } else {
      hide Note;
      LastPanIdWins(Note(c, es[0]), es[1..], i - 1);
    }
  }

  // ---- Every field, byte by byte --------------------------------------------------------------------

  /** Type, length and value of each entry, one after another. */
  function Flat(es: seq<Entry>): Bytes
    requires forall i :: 0 <= i < |es| ==> |es[i].value| < 256
  {
    if es == [] then [] else [es[0].typ, |es[0].value|] + es[0].value + Flat(es[1..])
  }

  /** The entries fill the dataset up to a rest too short for what it announces. */
  lemma {:induction false} EntriesSplit(d: Bytes) returns (rest: Bytes)
    ensures forall i :: 0 <= i < |Entries(d)| ==> |Entries(d)[i].value| < 256
    ensures d == Flat(Entries(d)) + rest && (|rest| < 2 || 2 + rest[1] > |rest|)
    decreases |d|
  {
    rest := d;
    if Head(d).Some? {
      var e := Head(d).value;
      var more := d[2 + |e.value|..];
      rest := EntriesSplit(more);
      assert Entries(d) == [e] + Entries(more);
      HeadSpelled(d, e);
      hide Head, Entries;
      FlatCons(e, Entries(more));
      assert d == [e.typ, |e.value|] + e.value + (Flat(Entries(more)) + rest);
    } else {
      assert Entries(d) == [];
    }
  }

  lemma HeadSpelled(d: Bytes, e: Entry)
    requires Head(d) == Some(e)
    ensures |e.value| < 256 && 2 + |e.value| <= |d| && d == [e.typ, |e.value|] + e.value + d[2 + |e.value|..]
  {
  }

  lemma FlatCons(e: Entry, es: seq<Entry>)
    requires |e.value| < 256 && forall i :: 0 <= i < |es| ==> |es[i].value| < 256
    ensures forall i :: 0 <= i < |[e] + es| ==> |([e] + es)[i].value| < 256
    ensures Flat([e] + es) == [e.typ, |e.value|] + e.value + Flat(es)
  {
    assert ([e] + es)[1..] == es;
  }

  /** A number of two bytes, the high one first. */
  function Both(hi: U8, lo: U8): int {
    256 * (hi as int) + lo as int
  }

  ghost predicate TellsChannel(e: Entry) { e.typ == 0 && |e.value| >= 3 }
  ghost predicate TellsPanId(e: Entry) { e.typ == 1 && |e.value| >= 2 }
  ghost predicate TellsExtPanId(e: Entry) { e.typ == 2 && |e.value| == 8 }
  ghost predicate TellsName(e: Entry) { e.typ == 3 }

  ghost predicate LastThat(es: seq<Entry>, tells: Entry -> bool, i: int) {
    0 <= i < |es| && tells(es[i]) && forall j :: i < j < |es| ==> !tells(es[j])
  }

  ghost predicate NoneThat(es: seq<Entry>, tells: Entry -> bool) {
    forall i :: 0 <= i < |es| ==> !tells(es[i])
  }

  /** The record says what the entries tell, each field by the last entry that tells it: the channel from the
      second and third byte, the PAN ID from the first two, eight bytes in hex, the name by character. */
  ghost predicate Describes(es: seq<Entry>, c: Creds) {
    && (forall i :: LastThat(es, TellsChannel, i) ==> c.channel == Both(es[i].value[1], es[i].value[2]))
    && (NoneThat(es, TellsChannel) ==> c.channel == -1)
    && (forall i :: LastThat(es, TellsPanId, i) ==> c.panId == Both(es[i].value[0], es[i].value[1]))
    && (NoneThat(es, TellsPanId) ==> c.panId == -1)
    && (forall i :: LastThat(es, TellsExtPanId, i) ==> c.extPanId == HexOf(es[i].value))
    && (NoneThat(es, TellsExtPanId) ==> c.extPanId == "")
    && (forall i :: LastThat(es, TellsName, i) ==> SpellsName(es[i].value, c.networkName))
    && (NoneThat(es, TellsName) ==> c.networkName == "")
  }

  ghost predicate SpellsName(v: Bytes, name: string) {
    |name| == |v| && forall k :: 0 <= k < |v| ==> name[k] as int == v[k]
  }

  /** A field that only the telling entries set keeps its value without them. */
  lemma {:induction false} FieldUntouched<T>(c: Creds, es: seq<Entry>, tells: Entry -> bool, field: Creds -> T)
    requires forall d: Creds, e: Entry :: !tells(e) ==> field(Note(d, e)) == field(d)
    requires NoneThat(es, tells)
    ensures field(NoteAll(c, es)) == field(c)
    decreases |es|
  {
    if es != [] {
      assert !tells(es[0]);
      assert forall i :: 0 <= i < |es| - 1 ==> es[1..][i] == es[i + 1];
      hide Note;
      FieldUntouched(Note(c, es[0]), es[1..], tells, field);
    }
  }

  /** And with them has the value the last one gives it. */
  lemma {:induction false} LastEntryTells<T>(c: Creds, es: seq<Entry>, tells: Entry -> bool, field: Creds -> T, i: nat)
    requires forall d: Creds, e: Entry :: !tells(e) ==> field(Note(d, e)) == field(d)
    requires forall d: Creds, b: Creds, e: Entry :: tells(e) ==> field(Note(d, e)) == field(Note(b, e))
    requires LastThat(es, tells, i)
    ensures field(NoteAll(c, es)) == field(Note(NO_CREDS, es[i]))
    decreases |es|
  {
    hide Note;
    assert forall j :: 0 <= j < |es| - 1 ==> es[1..][j] == es[j + 1];
    if i == 0 {
      FieldUntouched(Note(c, es[0]), es[1..], tells, field);
    } else {
      LastEntryTells(Note(c, es[0]), es[1..], tells, field, i - 1);
    }
  }

  lemma NotesDescribe(c: Creds, es: seq<Entry>)
    requires c.channel == c.panId == -1 && c.extPanId == c.networkName == ""
    ensures Describes(es, NoteAll(c, es))
  {
    hide NoteAll, HexOf;
    ChannelTold(c, es);
    PanIdTold(c, es);
    ExtPanIdTold(c, es);
    NameTold(c, es);
    hide LastThat, NoneThat;
  }

  lemma ChannelTold(c: Creds, es: seq<Entry>)
    ensures forall i :: LastThat(es, TellsChannel, i) ==> NoteAll(c, es).channel == Both(es[i].value[1], es[i].value[2])
    ensures NoneThat(es, TellsChannel) ==> NoteAll(c, es).channel == c.channel
  {
    hide NoteAll;
    var field := (d: Creds) => d.channel;
    forall i | LastThat(es, TellsChannel, i) ensures NoteAll(c, es).channel == Both(es[i].value[1], es[i].value[2]) {
      LastEntryTells(c, es, TellsChannel, field, i);
    }
    if NoneThat(es, TellsChannel) { FieldUntouched(c, es, TellsChannel, field); }
  }

  lemma PanIdTold(c: Creds, es: seq<Entry>)
    ensures forall i :: LastThat(es, TellsPanId, i) ==> NoteAll(c, es).panId == Both(es[i].value[0], es[i].value[1])
    ensures NoneThat(es, TellsPanId) ==> NoteAll(c, es).panId == c.panId
  {
    hide NoteAll;
    var field := (d: Creds) => d.panId;
    forall i | LastThat(es, TellsPanId, i) ensures NoteAll(c, es).panId == Both(es[i].value[0], es[i].value[1]) {
      LastEntryTells(c, es, TellsPanId, field, i);
    }
    if NoneThat(es, TellsPanId) { FieldUntouched(c, es, TellsPanId, field); }
  }

  lemma ExtPanIdTold(c: Creds, es: seq<Entry>)
    ensures forall i :: LastThat(es, TellsExtPanId, i) ==> NoteAll(c, es).extPanId == HexOf(es[i].value)
    ensures NoneThat(es, TellsExtPanId) ==> NoteAll(c, es).extPanId == c.extPanId
  {
    hide NoteAll;
    var field := (d: Creds) => d.extPanId;
    forall i | LastThat(es, TellsExtPanId, i) ensures NoteAll(c, es).extPanId == HexOf(es[i].value) {
      LastEntryTells(c, es, TellsExtPanId, field, i);
    }
    if NoneThat(es, TellsExtPanId) { FieldUntouched(c, es, TellsExtPanId, field); }
  }

  lemma NameTold(c: Creds, es: seq<Entry>)
    ensures forall i :: LastThat(es, TellsName, i) ==> SpellsName(es[i].value, NoteAll(c, es).networkName)
    ensures NoneThat(es, TellsName) ==> NoteAll(c, es).networkName == c.networkName
  {
    hide NoteAll;
    var field := (d: Creds) => d.networkName;
    forall i | LastThat(es, TellsName, i) ensures SpellsName(es[i].value, NoteAll(c, es).networkName) {
      LastEntryTells(c, es, TellsName, field, i);
    }
    if NoneThat(es, TellsName) { FieldUntouched(c, es, TellsName, field); }
  }

  /** Only dataset-independent fields pass through the walk. */
  lemma {:induction false} NotesKeepTheRest(c: Creds, es: seq<Entry>)
    ensures var r := NoteAll(c, es);
      r.has == c.has && r.dataset == c.dataset && r.host == c.host && r.fetchedAt == c.fetchedAt
    decreases |es|
  {
    if es != [] { NotesKeepTheRest(Note(c, es[0]), es[1..]); }
  }

  /** The walk's result depends on the metadata fields it starts from and on the dataset alone. */
  lemma {:induction false} NotesCommute(a: Creds, b: Creds, es: seq<Entry>)
    requires a.networkName == b.networkName && a.channel == b.channel
    requires a.panId == b.panId && a.extPanId == b.extPanId
    ensures var r, q := NoteAll(a, es), NoteAll(b, es);
      r.networkName == q.networkName && r.channel == q.channel && r.panId == q.panId && r.extPanId == q.extPanId
    decreases |es|
  {
    if es != [] { NotesCommute(Note(a, es[0]), Note(b, es[0]), es[1..]); }
  }

  // ---- Agreement of the two walkers -------------------------------------------------------------

  function Plain(es: seq<Entry>): (ts: seq<Tlv.Tlv>)
    ensures |ts| == |es| && forall i :: 0 <= i < |es| ==> ts[i] == Tlv.Tlv(es[i].typ, false, es[i].value)
  {
    if es == [] then [] else Plain(es[..|es| - 1]) + [Tlv.Tlv(es[|es| - 1].typ, false, es[|es| - 1].value)]
  }

  /** The one-byte walk reaches a header with length byte 0xFF that one of the two readers accepts. */
  predicate ExtendedAhead(d: Bytes)
    decreases |d|
  {
    |d| >= 2
    && if d[1] == 0xFF then Head(d).Some? || Tlv.Head(d).Some?
       else Head(d).Some? && ExtendedAhead(d[2 + d[1] as int..])
  }

  lemma PlainCons(e: Entry, es: seq<Entry>)
    ensures Plain([e] + es) == [Tlv.Tlv(e.typ, false, e.value)] + Plain(es)
  {
  }

  lemma SameTail<T>(x: T, a: seq<T>, b: seq<T>)
    ensures [x] + a == [x] + b <==> a == b
  {
    if [x] + a == [x] + b { assert ([x] + a)[1..] == a && ([x] + b)[1..] == b; }
  }

  /** The walkers see the same entries exactly when no such header is met. */
  lemma {:induction false} WalkersAgree(d: Bytes)
    ensures Tlv.Parse(d) == Plain(Entries(d)) <==> !ExtendedAhead(d)
    decreases |d|
  {
    if |d| >= 2 && d[1] != 0xFF && Head(d).Some? {
      hide Plain, Entries, Tlv.Parse;
      var e, rest := Head(d).value, d[2 + d[1] as int..];
      WalkersAgree(rest);
      PlainCons(e, Entries(rest));
      PlainHeads(e, d, rest);
      SameTail(Tlv.Tlv(e.typ, false, e.value), Tlv.Parse(rest), Plain(Entries(rest)));
    } else {
      HeadsDiffer(d);
    }
  }

  lemma PlainHeads(e: Entry, d: Bytes, rest: Bytes)
    requires |d| >= 2 && d[1] != 0xFF && Head(d) == Some(e) && rest == d[2 + d[1] as int..]
    ensures Tlv.Parse(d) == [Tlv.Tlv(e.typ, false, e.value)] + Tlv.Parse(rest)
    ensures Entries(d) == [e] + Entries(rest)
  {
    var t := Tlv.Tlv(e.typ, false, e.value);
    assert Tlv.Head(d) == Some(t) && |Tlv.EncodeTlv(t)| == 2 + d[1] as int;
    hide Tlv.Head, Tlv.EncodeTlv, Head;
  }

  lemma HeadsDiffer(d: Bytes)
    requires |d| < 2 || d[1] == 0xFF || Head(d).None?
    ensures Tlv.Parse(d) == Plain(Entries(d)) <==> !ExtendedAhead(d)
  {
    var a, b := Tlv.Parse(d), Plain(Entries(d));
    if Tlv.Head(d).Some? { assert a[0] == Tlv.Head(d).value; }
    if Head(d).Some? { assert b[0] == Tlv.Tlv(d[0], false, Head(d).value.value); }
  }

  lemma {:induction false} FirstAmong(es: seq<Entry>, i: nat)
    requires i < |es| && forall j :: 0 <= j < i ==> es[j].typ != es[i].typ
    ensures Tlv.First(Plain(es), es[i].typ) == Some(es[i].value)
    decreases i
  {
    hide Plain;
    assert es == [es[0]] + es[1..];
    PlainCons(es[0], es[1..]);
    assert Plain(es)[1..] == Plain(es[1..]);
    if i > 0 { FirstAmong(es[1..], i - 1); }
  }

  lemma {:induction false} NoneAmong(es: seq<Entry>, typ: U8)
    requires forall j :: 0 <= j < |es| ==> es[j].typ != typ
    ensures Tlv.First(Plain(es), typ) == None
  {
    if es != [] {
      hide Plain;
      assert es == [es[0]] + es[1..];
      PlainCons(es[0], es[1..]);
      assert Plain(es)[1..] == Plain(es[1..]);
      NoneAmong(es[1..], typ);
    }
  }

  /** With distinct types and no extended header, the PAN ID recorded is that of the TLV found. */
  lemma PanIdIsTheFoundOne(d: Bytes)
    requires !ExtendedAhead(d)
    requires forall i, j :: 0 <= i < j < |Entries(d)| ==> Entries(d)[i].typ != Entries(d)[j].typ
    ensures var found := Tlv.First(Tlv.Parse(d), PANID);
      NoteAll(NO_CREDS, Entries(d)).panId ==
        if found.Some? && |found.value| >= 2 then Word(found.value[0], found.value[1]) as int else -1
  {
    hide Entries, NoteAll, Plain;
    var es := Entries(d);
    WalkersAgree(d);
    if i :| 0 <= i < |es| && es[i].typ == PANID {
      FirstAmong(es, i);
      if |es[i].value| >= 2 {
        LastPanIdWins(NO_CREDS, es, i);
      } else {
        PanIdUntouched(NO_CREDS, es);
      }
    } else {
      NoneAmong(es, PANID);
      PanIdUntouched(NO_CREDS, es);
    }
  }

  /** One TLV with a 2-byte length: the search reads it, this walker takes 0xFF for a length and stops. */
  lemma WalkersCanDiffer()
    ensures var d := [PANID, 0xFF, 0, 2, 0x12, 0x34];
      Tlv.Parse(d) == [Tlv.Tlv(PANID, true, [0x12, 0x34])] && Entries(d) == []
  {
    var t := Tlv.Tlv(PANID, true, [0x12, 0x34]);
    assert Tlv.EncodeAll([t]) == [PANID, 0xFF, 0, 2, 0x12, 0x34];
    Tlv.ParseEncoded([t]);
  }
}
