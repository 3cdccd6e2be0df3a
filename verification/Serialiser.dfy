/** The JSON texts that carry the three lists to a device, built chunk by chunk through fixed buffers,
    and the reader a device applies to them. */
module Serialiser {
  import opened CTypes
  import opened Fabric
  import opened Decimal

  const OPEN: string := "{\"0:ARR-OBJ\":["
  const CLOSE: string := "]}"

  /** snprintf into a buffer of that size, as the terminated string it leaves. */
  function Snprintf(size: nat, text: string): string
    requires size > 0
  {
    if |text| < size then text else text[..size - 1]
  }

  // ---- The texts -----------------------------------------------------------------------------------

  function EntryHead(e: AclEntry): string {
    "{\"1:U8\":" + Dec(e.privilege) + ",\"2:U8\":" + Dec(e.authMode) + ",\"3:ARR-U64\":["
  }

  const ENTRY_TAIL: string := "],\"4:NULL\":null}"

  function SubjectText(x: U64): string {
    "\"" + Dec(x) + "\""
  }

  function EntryText(e: AclEntry): string {
    EntryHead(e) + Join(SubjectTexts(e.subjects)) + ENTRY_TAIL
  }

  function TargetText(t: Target): string {
    if t.isGroup then "{\"2:U16\":" + Dec(t.group) + ",\"4:U32\":" + Dec(t.cluster) + "}"
    else "{\"1:U64\":\"" + Dec(t.node) + "\",\"3:U16\":" + Dec(t.endpoint) + ",\"4:U32\":" + Dec(t.cluster) + "}"
  }

  function MappingText(e: KeyMapEntry): string {
    "{\"1:U16\":" + Dec(e.group) + ",\"2:U16\":" + Dec(e.keyset) + "}"
  }

  function SubjectTexts(xs: seq<U64>): (r: seq<string>)
    ensures |r| == |xs| && forall i :: 0 <= i < |xs| ==> r[i] == SubjectText(xs[i])
  {
    seq(|xs|, i requires 0 <= i < |xs| => SubjectText(xs[i]))
  }

  function EntryTexts(es: seq<AclEntry>): (r: seq<string>)
    ensures |r| == |es| && forall i :: 0 <= i < |es| ==> r[i] == EntryText(es[i])
  {
    seq(|es|, i requires 0 <= i < |es| => EntryText(es[i]))
  }

  function TargetTexts(ts: seq<Target>): (r: seq<string>)
    ensures |r| == |ts| && forall i :: 0 <= i < |ts| ==> r[i] == TargetText(ts[i])
  {
    seq(|ts|, i requires 0 <= i < |ts| => TargetText(ts[i]))
  }

  function MappingTexts(es: seq<KeyMapEntry>): (r: seq<string>)
    ensures |r| == |es| && forall i :: 0 <= i < |es| ==> r[i] == MappingText(es[i])
  {
    seq(|es|, i requires 0 <= i < |es| => MappingText(es[i]))
  }

  /** The items with commas between them. */
  function Join(items: seq<string>): string {
    if items == [] then "" else
    var n := |items| - 1;
    Join(items[..n]) + (if n == 0 then "" else ",") + items[n]
  }

  function AclText(es: seq<AclEntry>): string {
    OPEN + Join(EntryTexts(es)) + CLOSE
  }

  function BindingText(ts: seq<Target>): string {
    OPEN + Join(TargetTexts(ts)) + CLOSE
  }

  function KeyMapText(es: seq<KeyMapEntry>): string {
    OPEN + Join(MappingTexts(es)) + CLOSE
  }

  // ---- The texts spelled out --------------------------------------------------------------------------

  lemma EmptyTexts()
    ensures AclText([]) == BindingText([]) == KeyMapText([]) == "{\"0:ARR-OBJ\":[]}"
  {
    assert EntryTexts([]) == TargetTexts([]) == MappingTexts([]) == [];
  }

  /** One item more: a comma before it, if it is not the first, and the same end after it. */
  lemma JoinSnoc(items: seq<string>, item: string)
    ensures Join(items + [item]) == Join(items) + (if items == [] then "" else ",") + item
  {
    assert (items + [item])[..|items|] == items;
  }

  lemma TextGrows(open: string, items: seq<string>, item: string, close: string)
    ensures var text := open + Join(items) + close;
      open + Join(items + [item]) + close
      == text[..|text| - |close|] + (if items == [] then "" else ",") + item + close
  {
    hide Join;
    JoinSnoc(items, item);
    Reassemble(open, Join(items), if items == [] then "" else ",", item, close);
  }

  lemma Reassemble(o: string, j: string, comma: string, item: string, close: string)
    ensures o + (j + comma + item) + close == (o + j + close)[..|o + j + close| - |close|] + comma + item + close
  {
    assert (o + j + close)[..|o + j|] == o + j;
    assert o + (j + comma + item) + close == o + j + comma + item + close;
  }

  lemma SubjectsGrow(xs: seq<U64>, x: U64)
    ensures Join(SubjectTexts([])) == ""
    ensures Join(SubjectTexts(xs + [x])) ==
      Join(SubjectTexts(xs)) + (if xs == [] then "" else ",") + ("\"" + Dec(x) + "\"")
  {
    hide Join, Dec;
    assert SubjectTexts([]) == [];
    JoinNothing();
    assert SubjectTexts(xs + [x]) == SubjectTexts(xs) + [SubjectText(x)];
    JoinSnoc(SubjectTexts(xs), SubjectText(x));
  }

  lemma AclTextGrows(es: seq<AclEntry>, e: AclEntry)
    ensures AclText(es + [e]) ==
      AclText(es)[..|AclText(es)| - 2] + (if es == [] then "" else ",")
      + ("{\"1:U8\":" + Dec(e.privilege) + ",\"2:U8\":" + Dec(e.authMode) + ",\"3:ARR-U64\":["
         + Join(SubjectTexts(e.subjects)) + "],\"4:NULL\":null}") + "]}"
  {
    hide Join, Dec, SubjectTexts;
    assert EntryTexts(es + [e]) == EntryTexts(es) + [EntryText(e)];
    assert CLOSE == "]}" && ENTRY_TAIL == "],\"4:NULL\":null}";
    TextGrows(OPEN, EntryTexts(es), EntryText(e), CLOSE);
  }

  lemma BindingTextGrows(ts: seq<Target>, t: Target)
    ensures BindingText(ts + [t]) ==
      BindingText(ts)[..|BindingText(ts)| - 2] + (if ts == [] then "" else ",")
      + (if t.isGroup then "{\"2:U16\":" + Dec(t.group) + ",\"4:U32\":" + Dec(t.cluster) + "}"
         else "{\"1:U64\":\"" + Dec(t.node) + "\",\"3:U16\":" + Dec(t.endpoint) + ",\"4:U32\":" + Dec(t.cluster) + "}")
      + "]}"
  {
    hide Join, Dec;
    assert TargetTexts(ts + [t]) == TargetTexts(ts) + [TargetText(t)];
    assert CLOSE == "]}";
    TextGrows(OPEN, TargetTexts(ts), TargetText(t), CLOSE);
  }

  lemma KeyMapTextGrows(es: seq<KeyMapEntry>, e: KeyMapEntry)
    ensures KeyMapText(es + [e]) ==
      KeyMapText(es)[..|KeyMapText(es)| - 2] + (if es == [] then "" else ",")
      + ("{\"1:U16\":" + Dec(e.group) + ",\"2:U16\":" + Dec(e.keyset) + "}") + "]}"
  {
    hide Join, Dec;
    assert MappingTexts(es + [e]) == MappingTexts(es) + [MappingText(e)];
    assert CLOSE == "]}";
    TextGrows(OPEN, MappingTexts(es), MappingText(e), CLOSE);
  }

  // ---- Building them -------------------------------------------------------------------------------

  lemma JoinStep(items: seq<string>, i: nat)
    requires i < |items|
    ensures Join(items[..i + 1]) == Join(items[..i]) + (if i == 0 then "" else ",") + items[i]
  {
    assert items[..i + 1][..i] == items[..i];
  }

  lemma Grow(a: string, b: string, c: string, d: string)
    ensures a + b + (c + d) == a + (b + c + d)
  {
  }

  lemma EntryHeadFits(e: AclEntry)
    ensures |EntryHead(e)| < 40
  {
    DecWidths(e.privilege, 0, 0, 0);
    DecWidths(e.authMode, 0, 0, 0);
  }

  lemma SubjectFits(x: U64)
    ensures |SubjectText(x)| <= 22
  {
    DecWidths(0, 0, 0, x);
  }

  lemma TargetFits(t: Target)
    ensures |TargetText(t)| < 80
  {
    DecWidths(0, t.endpoint, t.cluster, t.node);
    DecWidths(0, t.group, 0, 0);
  }

  lemma MappingFits(e: KeyMapEntry)
    ensures |MappingText(e)| < 40
  {
    DecWidths(0, e.group, 0, 0);
    DecWidths(0, e.keyset, 0, 0);
  }

  /** The subjects loop the two ACL builders share; `size` is the builder's buffer. */
  method AppendSubjects(json: string, subjects: seq<U64>, size: nat) returns (r: string)
    requires size >= 64
    ensures r == json + Join(SubjectTexts(subjects))
  {
    hide SubjectText, Join;
    r := json;
    JoinNothing();
    assert SubjectTexts(subjects)[..0] == [];
    assert r == json + "";
    for j := 0 to |subjects|
      invariant r == json + Join(SubjectTexts(subjects)[..j])
    {
      SubjectFits(subjects[j]);
      var buf := Snprintf(size, (if j > 0 then "," else "") + SubjectText(subjects[j]));
      JoinStep(SubjectTexts(subjects), j);
      Grow(json, Join(SubjectTexts(subjects)[..j]), if j == 0 then "" else ",", SubjectText(subjects[j]));
      r := r + buf;
    }
    assert SubjectTexts(subjects)[..|subjects|] == SubjectTexts(subjects);
  }

  lemma JoinNothing()
    ensures Join([]) == ""
  {
  }

  /** build_acl_json's second entry, appended to the first. */
  method AppendOperateEntry(json: string, operateSubjects: seq<U64>) returns (r: string)
    ensures r == json + "," + EntryText(AclEntry(OPERATE, AUTH_CASE, operateSubjects))
  {
    hide EntryHead, Join;
    var e := AclEntry(OPERATE, AUTH_CASE, operateSubjects);
    EntryHeadFits(e);
    var buf := Snprintf(96, "," + EntryHead(e));
    r := json + buf;
    r := AppendSubjects(r, operateSubjects, 96);
    r := r + ENTRY_TAIL;
    Assemble(json, ",", EntryHead(e), Join(SubjectTexts(operateSubjects)), ENTRY_TAIL);
  }

  /** build_acl_json: the Administer entry in one chunk, then the Operate entry if there is one. */
  method BuildAclJson(controller: U64, operateSubjects: seq<U64>) returns (json: string)
    ensures json == AclText([AclEntry(ADMINISTER, AUTH_CASE, [controller])]
                            + if operateSubjects == [] then [] else [AclEntry(OPERATE, AUTH_CASE, operateSubjects)])
  {
    hide EntryText, Join;
    var admin := AclEntry(ADMINISTER, AUTH_CASE, [controller]);
    OneSubject(admin, controller);
    OneEntry(admin);
    var buf := Snprintf(96, EntryHead(admin) + SubjectText(controller) + ENTRY_TAIL);
    json := OPEN + buf;
    if operateSubjects != [] {
      var e := AclEntry(OPERATE, AUTH_CASE, operateSubjects);
      json := AppendOperateEntry(json, operateSubjects);
      TwoEntries(admin, e);
      assert json == OPEN + (EntryText(admin) + "," + EntryText(e));
    } else {
      assert [admin] + [] == [admin];
    }
    json := json + CLOSE;
  }

  lemma OneSubject(e: AclEntry, x: U64)
    requires e.subjects == [x]
    ensures EntryText(e) == EntryHead(e) + SubjectText(x) + ENTRY_TAIL && |EntryText(e)| < 96
  {
    hide EntryHead, SubjectText;
    SubjectFits(x);
    EntryHeadFits(e);
    var items := SubjectTexts(e.subjects);
    JoinStep(items, 0);
    assert items[..1] == items && items[..0] == [];
  }

  lemma OneEntry(e: AclEntry)
    ensures Join(EntryTexts([e])) == EntryText(e)
  {
    hide EntryText;
    var items := EntryTexts([e]);
    JoinStep(items, 0);
    assert items[..1] == items && items[..0] == [];
  }

  lemma TwoEntries(a: AclEntry, b: AclEntry)
    ensures Join(EntryTexts([a] + [b])) == EntryText(a) + "," + EntryText(b)
  {
    hide EntryText, Join;
    OneEntry(a);
    var items := EntryTexts([a] + [b]);
    JoinStep(items, 1);
    assert items[..2] == items && items[..1] == EntryTexts([a]);
  }

  /** build_acl_entries_json. */
  method BuildAclEntriesJson(entries: seq<AclEntry>) returns (json: string)
    ensures json == AclText(entries)
  {
    hide EntryHead, Join;
    json := OPEN;
    JoinNothing();
    assert EntryTexts(entries)[..0] == [];
    for i := 0 to |entries|
      invariant json == OPEN + Join(EntryTexts(entries)[..i])
    {
      var e := entries[i];
      EntryHeadFits(e);
      ghost var before := Join(EntryTexts(entries)[..i]);
      var comma := if i > 0 then "," else "";
      var buf := Snprintf(64, comma + EntryHead(e));
      json := json + buf;
      json := AppendSubjects(json, e.subjects, 64);
      json := json + ENTRY_TAIL;
      JoinStep(EntryTexts(entries), i);
      Assemble(OPEN + before, comma, EntryHead(e), Join(SubjectTexts(e.subjects)), ENTRY_TAIL);
      Grow(OPEN, before, comma, EntryText(e));
    }
    assert EntryTexts(entries)[..|entries|] == EntryTexts(entries);
    json := json + CLOSE;
  }

  lemma Assemble(a: string, b: string, c: string, d: string, e: string)
    ensures a + (b + c) + d + e == a + (b + (c + d + e))
  {
  }

  /** build_binding_json. */
  method BuildBindingJson(targets: seq<Target>) returns (json: string)
    ensures json == BindingText(targets)
  {
    hide TargetText, Join;
    json := OPEN;
    JoinNothing();
    assert TargetTexts(targets)[..0] == [];
    for i := 0 to |targets|
      invariant json == OPEN + Join(TargetTexts(targets)[..i])
    {
      TargetFits(targets[i]);
      var comma := if i > 0 then "," else "";
      var buf := Snprintf(128, comma + TargetText(targets[i]));
      JoinStep(TargetTexts(targets), i);
      Grow(OPEN, Join(TargetTexts(targets)[..i]), comma, TargetText(targets[i]));
      json := json + buf;
    }
    assert TargetTexts(targets)[..|targets|] == TargetTexts(targets);
    json := json + CLOSE;
  }

  /** build_groupkeymap_json. */
  method BuildGroupKeyMapJson(entries: seq<KeyMapEntry>) returns (json: string)
    ensures json == KeyMapText(entries)
  {
    hide MappingText, Join;
    json := OPEN;
    JoinNothing();
    assert MappingTexts(entries)[..0] == [];
    for i := 0 to |entries|
      invariant json == OPEN + Join(MappingTexts(entries)[..i])
    {
      MappingFits(entries[i]);
      var comma := if i > 0 then "," else "";
      var buf := Snprintf(64, comma + MappingText(entries[i]));
      JoinStep(MappingTexts(entries), i);
      Grow(OPEN, Join(MappingTexts(entries)[..i]), comma, MappingText(entries[i]));
      json := json + buf;
    }
    assert MappingTexts(entries)[..|entries|] == MappingTexts(entries);
    json := json + CLOSE;
  }

  // ---- Reading them ----------------------------------------------------------------------------------

  function Eat(lit: string, s: string): (r: Option<string>)
    ensures r.Some? ==> s == lit + r.value
  {
    if lit <= s then Some(s[|lit|..]) else None
  }

  /** A decimal number below the limit. */
  function Field(limit: nat, s: string): (r: Option<(nat, string)>)
    ensures r.Some? ==> r.value.0 < limit && |r.value.1| < |s|
  {
    var p := ParseDec(s);
    if p.Some? && p.value.0 < limit then p else None
  }

  /** Items separated by commas, up to a closing bracket that is left in place. */
  function Items<T>(item: string -> Option<(T, string)>, s: string): (r: Option<(seq<T>, string)>)
    decreases |s|
  {
    var p := item(s);
    if p.None? || |p.value.1| >= |s| then None
    else if p.value.1 != "" && p.value.1[0] == ',' then
      var more := Items(item, p.value.1[1..]);
      if more.None? then None else Some(([p.value.0] + more.value.0, more.value.1))
    else Some(([p.value.0], p.value.1))
  }

  function List<T>(item: string -> Option<(T, string)>, s: string): Option<(seq<T>, string)> {
    if s != "" && s[0] == ']' then Some(([], s)) else Items(item, s)
  }

  function ParseSubject(s: string): Option<(U64, string)> {
    var a :- Eat("\"", s);
    var n :- Field(0x1_0000_0000_0000_0000, a);
    var b :- Eat("\"", n.1);
    Some((n.0, b))
  }

  function ParseEntry(s: string): Option<(AclRaw, string)> {
    var a :- Eat("{\"1:U8\":", s);
    var privilege :- Field(0x100, a);
    var b :- Eat(",\"2:U8\":", privilege.1);
    var authMode :- Field(0x100, b);
    var c :- Eat(",\"3:ARR-U64\":[", authMode.1);
    var subjects :- List(ParseSubject, c);
    var d :- Eat(ENTRY_TAIL, subjects.1);
    Some((AclRaw(Some(privilege.0), Some(authMode.0), Some(subjects.0)), d))
  }

  function ParseUnicast(s: string): Option<(BindingRaw, string)> {
    var a :- Eat("{\"1:U64\":\"", s);
    var node :- Field(0x1_0000_0000_0000_0000, a);
    var b :- Eat("\",\"3:U16\":", node.1);
    var ep :- Field(0x1_0000, b);
    var c :- Eat(",\"4:U32\":", ep.1);
    var cluster :- Field(0x1_0000_0000, c);
    var d :- Eat("}", cluster.1);
    Some((BindingRaw(Some(node.0), None, Some(ep.0), Some(cluster.0)), d))
  }

  function ParseGroup(s: string): Option<(BindingRaw, string)> {
    var a :- Eat("{\"2:U16\":", s);
    var g :- Field(0x1_0000, a);
    var c :- Eat(",\"4:U32\":", g.1);
    var cluster :- Field(0x1_0000_0000, c);
    var d :- Eat("}", cluster.1);
    Some((BindingRaw(None, Some(g.0), None, Some(cluster.0)), d))
  }

  function ParseTarget(s: string): Option<(BindingRaw, string)> {
    if ParseGroup(s).Some? then ParseGroup(s) else ParseUnicast(s)
  }

  function ParseMapping(s: string): Option<(KeyMapRaw, string)> {
    var a :- Eat("{\"1:U16\":", s);
    var g :- Field(0x1_0000, a);
    var b :- Eat(",\"2:U16\":", g.1);
    var k :- Field(0x1_0000, b);
    var c :- Eat("}", k.1);
    Some((KeyMapRaw(Some(g.0), Some(k.0)), c))
  }

  /** A whole attribute value. */
  function Document<T>(item: string -> Option<(T, string)>, s: string): Option<seq<T>> {
    var a :- Eat(OPEN, s);
    var items :- List(item, a);
    if items.1 == CLOSE then Some(items.0) else None
  }

  function ParseAcl(s: string): Option<seq<AclRaw>> {
    Document(ParseEntry, s)
  }

  function ParseBindings(s: string): Option<seq<BindingRaw>> {
    Document(ParseTarget, s)
  }

  function ParseKeyMap(s: string): Option<seq<KeyMapRaw>> {
    Document(ParseMapping, s)
  }

  // ---- The reader undoes the builder -----------------------------------------------------------------

  lemma EatPrinted(lit: string, rest: string)
    ensures Eat(lit, lit + rest) == Some(rest)
  {
  }

  lemma FieldPrinted(n: nat, limit: nat, rest: string)
    requires n < limit && (rest == "" || !IsDigit(rest[0]))
    ensures Field(limit, Dec(n) + rest) == Some((n, rest))
  {
    ParsePrinted(n, rest);
  }

  /** item reads x off the front of any text that opens with t. */
  ghost predicate Reads<T(!new)>(item: string -> Option<(T, string)>, t: string, x: T) {
    t != "" && t[0] != ']' && forall rest: string :: item(t + rest) == Some((x, rest))
  }

  lemma {:induction false} JoinFirst(items: seq<string>)
    requires items != []
    ensures Join(items) == if |items| == 1 then items[0] else items[0] + "," + Join(items[1..])
  {
    var n := |items| - 1;
    if n > 0 {
      JoinFirst(items[..n]);
      hide Join;
      var rest := items[1..];
      assert items[..n][1..] == rest[..n - 1];
      JoinSnoc(items[..n], items[n]);
      JoinSnoc(rest[..n - 1], items[n]);
      assert items == items[..n] + [items[n]] && rest == rest[..n - 1] + [items[n]];
      if n == 1 { JoinNothing(); }
      Associate(items[0], Join(rest[..n - 1]), items[n]);
    } else {
      assert Join(items[..0]) == "";
    }
  }

  lemma Associate(a: string, b: string, c: string)
    ensures a + "," + b + "," + c == a + "," + (b + "," + c)
    ensures "" + "" + c == c && a + "," + c == a + "," + ("" + "" + c)
  {
  }

  lemma {:induction false} ItemsPrinted<T(!new)>(item: string -> Option<(T, string)>, ts: seq<string>,
                                                 xs: seq<T>, rest: string)
    requires |ts| == |xs| > 0 && forall i :: 0 <= i < |ts| ==> Reads(item, ts[i], xs[i])
    requires rest != "" && rest[0] == ']'
    ensures Items(item, Join(ts) + rest) == Some((xs, rest))
    decreases |ts|
  {
    JoinFirst(ts);
    hide Join;
    if |ts| == 1 {
      assert item(ts[0] + rest) == Some((xs[0], rest));
      assert xs == [xs[0]];
    } else {
      var more := Join(ts[1..]) + rest;
      var tail := "," + more;
      assert Join(ts) + rest == ts[0] + tail;
      assert item(ts[0] + tail) == Some((xs[0], tail));
      ItemsPrinted(item, ts[1..], xs[1..], rest);
      assert tail[1..] == more;
      assert xs == [xs[0]] + xs[1..];
      assert ts[0] != "" by { assert |tail| < |ts[0] + tail|; }
      hide Items;
      ItemsStep(item, ts[0] + tail, xs[0], tail);
    }
  }

  /** One item, a comma, and the rest. */
  lemma ItemsStep<T>(item: string -> Option<(T, string)>, s: string, x: T, tail: string)
    requires item(s) == Some((x, tail)) && |tail| < |s| && tail != "" && tail[0] == ','
    ensures var more := Items(item, tail[1..]);
      Items(item, s) == if more.None? then None else Some(([x] + more.value.0, more.value.1))
  {
  }

  lemma ListPrinted<T(!new)>(item: string -> Option<(T, string)>, ts: seq<string>, xs: seq<T>, rest: string)
    requires |ts| == |xs| && forall i :: 0 <= i < |ts| ==> Reads(item, ts[i], xs[i])
    requires rest != "" && rest[0] == ']'
    ensures List(item, Join(ts) + rest) == Some((xs, rest))
  {
    if ts == [] {
      assert Join(ts) + rest == rest;
    } else {
      ItemsPrinted(item, ts, xs, rest);
      JoinFirst(ts);
      assert (Join(ts) + rest)[0] == ts[0][0];
    }
  }

  lemma DocumentPrinted<T(!new)>(item: string -> Option<(T, string)>, ts: seq<string>, xs: seq<T>)
    requires |ts| == |xs| && forall i :: 0 <= i < |ts| ==> Reads(item, ts[i], xs[i])
    ensures Document(item, OPEN + Join(ts) + CLOSE) == Some(xs)
  {
    EatPrinted(OPEN, Join(ts) + CLOSE);
    assert OPEN + Join(ts) + CLOSE == OPEN + (Join(ts) + CLOSE);
    ListPrinted(item, ts, xs, CLOSE);
  }

  lemma SubjectReads(x: U64)
    ensures Reads(ParseSubject, SubjectText(x), x)
  {
    forall rest: string ensures ParseSubject(SubjectText(x) + rest) == Some((x, rest)) {
      assert SubjectText(x) + rest == "\"" + (Dec(x) + ("\"" + rest));
      EatPrinted("\"", Dec(x) + ("\"" + rest));
      FieldPrinted(x, 0x1_0000_0000_0000_0000, "\"" + rest);
      EatPrinted("\"", rest);
    }
  }

  lemma EntryReads(e: AclEntry)
    ensures Reads(ParseEntry, EntryText(e), WriteEntry(e))
  {
    forall rest: string ensures ParseEntry(EntryText(e) + rest) == Some((WriteEntry(e), rest)) {
      EntryReadsBefore(e, rest);
    }
  }

  lemma EntryReadsBefore(e: AclEntry, rest: string)
    ensures ParseEntry(EntryText(e) + rest) == Some((WriteEntry(e), rest))
  {
    hide Eat, Field, List, Dec, Join;
    var s5 := ENTRY_TAIL + rest;
    var s4 := Join(SubjectTexts(e.subjects)) + s5;
    var s3 := ",\"3:ARR-U64\":[" + s4;
    var s2 := ",\"2:U8\":" + (Dec(e.authMode) + s3);
    assert EntryText(e) + rest == "{\"1:U8\":" + (Dec(e.privilege) + s2);
    EatPrinted("{\"1:U8\":", Dec(e.privilege) + s2);
    FieldPrinted(e.privilege, 0x100, s2);
    EatPrinted(",\"2:U8\":", Dec(e.authMode) + s3);
    FieldPrinted(e.authMode, 0x100, s3);
    EatPrinted(",\"3:ARR-U64\":[", s4);
    forall i | 0 <= i < |e.subjects| ensures Reads(ParseSubject, SubjectTexts(e.subjects)[i], e.subjects[i]) {
      SubjectReads(e.subjects[i]);
    }
    ListPrinted(ParseSubject, SubjectTexts(e.subjects), e.subjects, s5);
    EatPrinted(ENTRY_TAIL, rest);
  }

  lemma TargetReads(t: Target)
    ensures Reads(ParseTarget, TargetText(t), WriteTarget(t))
  {
    forall rest: string ensures ParseTarget(TargetText(t) + rest) == Some((WriteTarget(t), rest)) {
      if t.isGroup { GroupReadsBefore(t, rest); } else { UnicastReadsBefore(t, rest); }
    }
  }

  lemma GroupReadsBefore(t: Target, rest: string)
    requires t.isGroup
    ensures ParseTarget(TargetText(t) + rest) == Some((WriteTarget(t), rest))
  {
    hide Eat, Field, Dec;
    var s3 := "}" + rest;
    var s2 := ",\"4:U32\":" + (Dec(t.cluster) + s3);
    assert TargetText(t) + rest == "{\"2:U16\":" + (Dec(t.group) + s2);
    EatPrinted("{\"2:U16\":", Dec(t.group) + s2);
    FieldPrinted(t.group, 0x1_0000, s2);
    EatPrinted(",\"4:U32\":", Dec(t.cluster) + s3);
    FieldPrinted(t.cluster, 0x1_0000_0000, s3);
    EatPrinted("}", rest);
  }

  lemma UnicastReadsBefore(t: Target, rest: string)
    requires !t.isGroup
    ensures ParseTarget(TargetText(t) + rest) == Some((WriteTarget(t), rest))
  {
    UnicastIsNoGroup(t, rest);
    UnicastParses(t, rest);
    hide ParseGroup, ParseUnicast;
  }

  lemma UnicastParses(t: Target, rest: string)
    requires !t.isGroup
    ensures ParseUnicast(TargetText(t) + rest) == Some((WriteTarget(t), rest))
  {
    hide Eat, Field, Dec;
    var s4 := "}" + rest;
    var s3 := ",\"4:U32\":" + (Dec(t.cluster) + s4);
    var s2 := "\",\"3:U16\":" + (Dec(t.endpoint) + s3);
    assert TargetText(t) + rest == "{\"1:U64\":\"" + (Dec(t.node) + s2);
    EatPrinted("{\"1:U64\":\"", Dec(t.node) + s2);
    FieldPrinted(t.node, 0x1_0000_0000_0000_0000, s2);
    EatPrinted("\",\"3:U16\":", Dec(t.endpoint) + s3);
    FieldPrinted(t.endpoint, 0x1_0000, s3);
    EatPrinted(",\"4:U32\":", Dec(t.cluster) + s4);
    FieldPrinted(t.cluster, 0x1_0000_0000, s4);
    EatPrinted("}", rest);
  }

  lemma UnicastIsNoGroup(t: Target, rest: string)
    requires !t.isGroup
    ensures ParseGroup(TargetText(t) + rest) == None
  {
    var s := TargetText(t) + rest;
    assert s[2] == '1';
    assert "{\"2:U16\":"[2] == '2';
  }

  lemma MappingReads(e: KeyMapEntry)
    ensures Reads(ParseMapping, MappingText(e), WriteKeyMapEntry(e))
  {
    forall rest: string ensures ParseMapping(MappingText(e) + rest) == Some((WriteKeyMapEntry(e), rest)) {
      MappingReadsBefore(e, rest);
    }
  }

  lemma MappingReadsBefore(e: KeyMapEntry, rest: string)
    ensures ParseMapping(MappingText(e) + rest) == Some((WriteKeyMapEntry(e), rest))
  {
    hide Eat, Field, Dec;
    var s3 := "}" + rest;
    var s2 := ",\"2:U16\":" + (Dec(e.keyset) + s3);
    assert MappingText(e) + rest == "{\"1:U16\":" + (Dec(e.group) + s2);
    EatPrinted("{\"1:U16\":", Dec(e.group) + s2);
    FieldPrinted(e.group, 0x1_0000, s2);
    EatPrinted(",\"2:U16\":", Dec(e.keyset) + s3);
    FieldPrinted(e.keyset, 0x1_0000, s3);
    EatPrinted("}", rest);
  }

  /** Each text, read, gives back every printed field of the list in order. */
  lemma AclTextReadsBack(es: seq<AclEntry>)
    ensures ParseAcl(AclText(es)) == Some(WriteAcl(es))
  {
    hide EntryText, ParseEntry, Join, Document, Reads;
    forall i | 0 <= i < |es| ensures Reads(ParseEntry, EntryTexts(es)[i], WriteAcl(es)[i]) { EntryReads(es[i]); }
    DocumentPrinted(ParseEntry, EntryTexts(es), WriteAcl(es));
  }

  lemma BindingTextReadsBack(ts: seq<Target>)
    ensures ParseBindings(BindingText(ts)) == Some(WriteTargets(ts))
  {
    hide TargetText, ParseTarget, Join, Document, Reads;
    forall i | 0 <= i < |ts| ensures Reads(ParseTarget, TargetTexts(ts)[i], WriteTargets(ts)[i]) { TargetReads(ts[i]); }
    DocumentPrinted(ParseTarget, TargetTexts(ts), WriteTargets(ts));
  }

  lemma KeyMapTextReadsBack(es: seq<KeyMapEntry>)
    ensures ParseKeyMap(KeyMapText(es)) == Some(WriteKeyMap(es))
  {
    hide MappingText, ParseMapping, Join, Document, Reads;
    forall i | 0 <= i < |es| ensures Reads(ParseMapping, MappingTexts(es)[i], WriteKeyMap(es)[i]) {
      MappingReads(es[i]);
    }
    DocumentPrinted(ParseMapping, MappingTexts(es), WriteKeyMap(es));
  }

  /** So two lists with the same text agree on every printed field. */
  lemma TextDeterminesList(es: seq<AclEntry>, fs: seq<AclEntry>, ts: seq<Target>, us: seq<Target>,
                           ks: seq<KeyMapEntry>, ls: seq<KeyMapEntry>)
    ensures AclText(es) == AclText(fs) ==> es == fs
    ensures BindingText(ts) == BindingText(us) ==> WriteTargets(ts) == WriteTargets(us)
    ensures KeyMapText(ks) == KeyMapText(ls) ==> ks == ls
  {
    hide AclText, BindingText, KeyMapText, ParseAcl, ParseBindings, ParseKeyMap;
    AclTextReadsBack(es);
    AclTextReadsBack(fs);
    AclReadsBack(es);
    AclReadsBack(fs);
    BindingTextReadsBack(ts);
    BindingTextReadsBack(us);
    KeyMapTextReadsBack(ks);
    KeyMapTextReadsBack(ls);
    KeyMapReadsBack(ks);
    KeyMapReadsBack(ls);
  }

  // ---- Single texts ------------------------------------------------------------------------------------

  lemma OneDigit(n: nat)
    requires n < 10
    ensures Dec(n) == [(48 + n) as char]
  {
  }

  lemma ControllerDigits()
    ensures Dec(112233) == "112233"
  {
    assert Dec(11) == "11" && Dec(112) == "112" && Dec(1122) == "1122";
    assert Dec(11223) == Dec(1122) + "3";
    assert Dec(112233) == Dec(11223) + "3";
  }

  lemma OpenCut()
    ensures var empty := "{\"0:ARR-OBJ\":[]}"; empty[..|empty| - 2] == "{\"0:ARR-OBJ\":["
  {
  }

  lemma Flatten(o: string, a: string, b: string, c: string, d: string, e: string, f: string, g: string, k: string)
    ensures o + "" + (a + b + c + d + e + f + g) + k == o + (a + b + c + d) + (e + f) + g + k
  {
  }

  lemma AdminPieces()
    ensures "{\"1:U8\":" + "5" + ",\"2:U8\":" + "2" == "{\"1:U8\":5,\"2:U8\":2"
    ensures ",\"3:ARR-U64\":[" + ("" + "" + ("\"" + "112233" + "\"")) == ",\"3:ARR-U64\":[\"112233\""
  {
  }

  /** The controller's entry alone: privilege 5, auth mode 2, subject 112233, no targets. */
  lemma AdminText()
    ensures var text := "{\"0:ARR-OBJ\":[" + "{\"1:U8\":5,\"2:U8\":2" + ",\"3:ARR-U64\":[\"112233\""
                        + "],\"4:NULL\":null}" + "]}";
      && AclText([AclEntry(ADMINISTER, AUTH_CASE, [CONTROLLER])]) == text
      && ParseAcl(text) == Some([AclRaw(Some(5), Some(2), Some([112233]))])
  {
    hide Dec, Join, AclText, ParseAcl;
    var e := AclEntry(5, 2, [112233]);
    EmptyTexts();
    AclTextGrows([], e);
    SubjectsGrow([], 112233);
    ControllerDigits();
    OneDigit(5);
    OneDigit(2);
    assert [] + [e] == [e] && [] + [112233] == e.subjects;
    OpenCut();
    AdminPieces();
    Flatten("{\"0:ARR-OBJ\":[", "{\"1:U8\":", "5", ",\"2:U8\":", "2", ",\"3:ARR-U64\":[",
            Join(SubjectTexts(e.subjects)), "],\"4:NULL\":null}", "]}");
    AclTextReadsBack([e]);
    AdminRaw(e);
  }

  lemma AdminRaw(e: AclEntry)
    ensures WriteAcl([e]) == [AclRaw(Some(e.privilege), Some(e.authMode), Some(e.subjects))]
  {
  }

  lemma TargetPieces()
    ensures "{\"1:U64\":\"" + "1" + "\",\"3:U16\":" + "2" == "{\"1:U64\":\"1\",\"3:U16\":2"
    ensures ",\"4:U32\":" + "6" == ",\"4:U32\":6"
    ensures "{\"2:U16\":" + "5" == "{\"2:U16\":5"
  {
  }

  /** A unicast OnOff target of node 1, endpoint 2. */
  lemma UnicastTextSpelled()
    ensures var text := "{\"0:ARR-OBJ\":[" + "{\"1:U64\":\"1\",\"3:U16\":2" + ",\"4:U32\":6" + "}" + "]}";
      && BindingText([Target(1, 2, ONOFF, 0, false)]) == text
      && ParseBindings(text) == Some([BindingRaw(Some(1), None, Some(2), Some(6))])
  {
    hide Dec, BindingText, ParseBindings;
    var t := Target(1, 2, 6, 0, false);
    EmptyTexts();
    BindingTextGrows([], t);
    OneDigit(1);
    OneDigit(2);
    OneDigit(6);
    assert [] + [t] == [t];
    OpenCut();
    TargetPieces();
    Flatten("{\"0:ARR-OBJ\":[", "{\"1:U64\":\"", "1", "\",\"3:U16\":", "2", ",\"4:U32\":", "6", "}", "]}");
    BindingTextReadsBack([t]);
    assert WriteTargets([t]) == [BindingRaw(Some(1), None, Some(2), Some(6))];
  }

  lemma FlattenShort(o: string, a: string, b: string, c: string, d: string, e: string, k: string)
    ensures o + "" + (a + b + c + d + e) + k == o + (a + b) + (c + d) + e + k
  {
  }

  /** The OnOff target of group 5. */
  lemma GroupTextSpelled()
    ensures var text := "{\"0:ARR-OBJ\":[" + "{\"2:U16\":5" + ",\"4:U32\":6" + "}" + "]}";
      && BindingText([Target(0, 0, ONOFF, 5, true)]) == text
      && ParseBindings(text) == Some([BindingRaw(None, Some(5), None, Some(6))])
  {
    hide Dec, BindingText, ParseBindings;
    var t := Target(0, 0, 6, 5, true);
    EmptyTexts();
    BindingTextGrows([], t);
    OneDigit(5);
    OneDigit(6);
    assert [] + [t] == [t];
    OpenCut();
    TargetPieces();
    FlattenShort("{\"0:ARR-OBJ\":[", "{\"2:U16\":", "5", ",\"4:U32\":", "6", "}", "]}");
    BindingTextReadsBack([t]);
    assert WriteTargets([t]) == [BindingRaw(None, Some(5), None, Some(6))];
  }

  lemma MappingPieces()
    ensures "{\"1:U16\":" + "5" == "{\"1:U16\":5" && ",\"2:U16\":" + "1" == ",\"2:U16\":1"
  {
  }

  /** Group 5 mapped to keyset 1. */
  lemma MappingTextSpelled()
    ensures var text := "{\"0:ARR-OBJ\":[" + "{\"1:U16\":5" + ",\"2:U16\":1" + "}" + "]}";
      && KeyMapText([KeyMapEntry(5, 1)]) == text
      && ParseKeyMap(text) == Some([KeyMapRaw(Some(5), Some(1))])
  {
    hide Dec, KeyMapText, ParseKeyMap;
    var e := KeyMapEntry(5, 1);
    EmptyTexts();
    KeyMapTextGrows([], e);
    OneDigit(5);
    OneDigit(1);
    assert [] + [e] == [e];
    OpenCut();
    MappingPieces();
    FlattenShort("{\"0:ARR-OBJ\":[", "{\"1:U16\":", "5", ",\"2:U16\":", "1", "}", "]}");
    KeyMapTextReadsBack([e]);
    assert WriteKeyMap([e]) == [KeyMapRaw(Some(5), Some(1))];
  }
}
