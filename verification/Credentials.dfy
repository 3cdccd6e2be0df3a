/** The Thread credential store of thread_credentials.cpp: one static record and one file. */
module Credentials {
  import opened CTypes
  import opened Hex
  import opened Json
  import opened Metadata

  const MAX_DATASET_LEN: nat := 256
  const MAX_FILE: int := 4096

  /** (double) of a signed number of seconds, and back. */
  function SignedDouble(n: int): int {
    if n < 0 then -ToDouble(-n) else ToDouble(n)
  }

  function DoubleToI64(v: int): int {
    if -0x8000_0000_0000_0000 <= v < 0x8000_0000_0000_0000 then v else 0
  }

  /** What persist_locked writes. */
  function SavedJson(c: Creds): Json {
    Object([("hasCredentials", Bool(c.has))]
           + if !c.has then []
             else [("dataset", String(HexOf(c.dataset))), ("networkName", String(CString(c.networkName))),
                   ("channel", Number(c.channel)), ("panId", Number(c.panId)), ("extPanId", String(c.extPanId)),
                   ("borderAgentHost", String(CString(c.host))), ("fetchedAt", Number(SignedDouble(c.fetchedAt)))])
  }

  /** What load_from_disk makes of a document, starting from the record c. A dataset that is not hex
      leaves the digits before the fault behind, without marking the credentials as present. */
  function LoadedCreds(c: Creds, root: Json): Creds {
    var ds := Get(root, "dataset");
    if Get(root, "hasCredentials") != Bool(true) || !ds.String? then c
    else if |ds.text| % 2 != 0 then c
    else if |DecodedPairs(ds.text)| * 2 != |ds.text| then c.(dataset := DecodedPairs(ds.text))
    else
      var noted := NoteAll(c.(dataset := DecodedPairs(ds.text), has := true), Entries(DecodedPairs(ds.text)));
      var host, at := Get(root, "borderAgentHost"), Get(root, "fetchedAt");
      noted.(host := if host.String? then host.text else noted.host,
             fetchedAt := if at.Number? then DoubleToI64(at.value) else noted.fetchedAt)
  }

  lemma {:induction false} WholeStringDecodes(hex: string)
    ensures IsHex(hex) <==> |hex| % 2 == 0 && |DecodedPairs(hex)| * 2 == |hex|
  {
    hide Nibble, DecodedPairs;
    if |hex| < 2 {
      NoPairs(hex);
      if |hex| == 0 { assert IsHex(hex); }
    } else {
      PairsStep(hex);
      WholeStringDecodes(hex[2..]);
      HexByPair(hex);
    }
  }

  lemma HexByPair(hex: string)
    requires |hex| >= 2
    ensures IsHex(hex) <==> Nibble(hex[0]) >= 0 && Nibble(hex[1]) >= 0 && IsHex(hex[2..])
  {
    hide Nibble;
    assert forall i :: 0 <= i < |hex| - 2 ==> hex[2..][i] == hex[i + 2];
    if Nibble(hex[0]) >= 0 && Nibble(hex[1]) >= 0 && IsHex(hex[2..]) {
      forall i | 0 <= i < |hex| ensures Nibble(hex[i]) >= 0 {
        if i >= 2 { assert hex[2..][i - 2] == hex[i]; }
      }
    }
  }

  /** The record a successful store leaves. */
  function Stored(dataset: Bytes, host: Option<string>, now: int): Creds {
    NoteAll(NO_CREDS.(has := true, dataset := dataset), Entries(dataset))
      .(host := if host.Some? then CString(host.value) else "", fetchedAt := now)
  }

  /** The record holds this dataset whole, what its entries tell, and the host up to a NUL. */
  ghost predicate Keeps(c: Creds, dataset: Bytes, host: Option<string>) {
    && c.has && c.dataset == dataset && Describes(Entries(dataset), c)
    && (host.None? ==> c.host == "")
    && (host.Some? ==> c.host <= host.value && '\0' !in c.host
                       && (|c.host| < |host.value| ==> host.value[|c.host|] == '\0'))
  }

  lemma StoredKeeps(dataset: Bytes, host: Option<string>, now: int)
    ensures Keeps(Stored(dataset, host, now), dataset, host)
  {
    hide NoteAll, Entries, CString, Describes;
    var start, es := NO_CREDS.(has := true, dataset := dataset), Entries(dataset);
    NotesKeepTheRest(start, es);
    NotesDescribe(start, es);
    SameDescription(es, NoteAll(start, es), Stored(dataset, host, now));
    if host.Some? { CStringEnds(host.value); }
  }

  lemma SameDescription(es: seq<Entry>, a: Creds, b: Creds)
    requires Describes(es, a) && a.channel == b.channel && a.panId == b.panId
    requires a.extPanId == b.extPanId && a.networkName == b.networkName
    ensures Describes(es, b)
  {
    hide LastThat, NoneThat;
  }

  lemma {:induction false} CStringEnds(s: string)
    ensures '\0' !in CString(s) && (|CString(s)| < |s| ==> s[|CString(s)|] == '\0')
  {
    if s != [] && s[0] != '\0' {
      CStringEnds(s[1..]);
    }
  }

  class CredentialStore {
    var creds: Creds
    var file: File

    /** A start-up: the record is empty until load_from_disk runs on the file found. */
    constructor (file: File)
      ensures creds == NO_CREDS && this.file == file
    {
      creds, this.file := NO_CREDS, file;
    }

    /** persist_locked: `size` is the length of the printed text, `written` whether the file system
        let the whole write through. */
    method PersistLocked(size: int, written: bool) returns (err: Err)
      modifies `file
      ensures err == if written then Ok else Fail
      ensures file == if written then File(size, Some(SavedJson(creds))) else old(file)
    {
      var fields := [("hasCredentials", Bool(creds.has))];
      if creds.has {
        var hex := BytesToHex(creds.dataset);
        fields := fields
          + [("dataset", String(hex)), ("networkName", String(CString(creds.networkName))),
             ("channel", Number(creds.channel)), ("panId", Number(creds.panId)), ("extPanId", String(creds.extPanId)),
             ("borderAgentHost", String(CString(creds.host))), ("fetchedAt", Number(SignedDouble(creds.fetchedAt)))];
      }
      assert fields == SavedJson(creds).fields;
      if !written { return Fail; }
      file := File(size, Some(Object(fields)));
      err := Ok;
    }

    /** thread_credentials_store: only the dataset's length is checked, and a failed write leaves
        the new record in memory. */
    method Store(dataset: Option<Bytes>, host: Option<string>, now: int, size: int, written: bool) returns (err: Err)
      modifies this
      ensures dataset.None? || |dataset.value| == 0 || |dataset.value| > 256 ==>
        err == InvalidArg && creds == old(creds) && file == old(file)
      ensures dataset.Some? && 0 < |dataset.value| <= 256 ==>
        Keeps(creds, dataset.value, host) && creds.fetchedAt == now
      ensures dataset.Some? && 0 < |dataset.value| <= 256 ==>
        err == (if written then Ok else Fail) && creds == Stored(dataset.value, host, now)
        && file == if written then File(size, Some(SavedJson(creds))) else old(file)
    {
      if dataset.None? || |dataset.value| == 0 || |dataset.value| > MAX_DATASET_LEN { return InvalidArg; }
      creds := NO_CREDS;
      creds := creds.(has := true);
      creds := creds.(dataset := dataset.value);
      creds := ParseDatasetMetadata(dataset.value, creds);
      NotesKeepTheRest(NO_CREDS.(has := true, dataset := dataset.value), Entries(dataset.value));
      if host.Some? { creds := creds.(host := CString(host.value)); }
      creds := creds.(fetchedAt := now);
      StoredKeeps(dataset.value, host, now);
      err := PersistLocked(size, written);
    }

    method LoadFromDisk()
      modifies `creds
      ensures creds == if file.File? && 0 < file.size <= 4096 && file.root.Some?
                       then LoadedCreds(old(creds), file.root.value) else old(creds)
    {
      hide NoteAll, Entries, DecodedPairs, IsHex, Get;
      if file.Missing? || file.size <= 0 || file.size > MAX_FILE || file.root.None? { return; }
      var root := file.root.value;
      if Get(root, "hasCredentials") != Bool(true) { return; }
      var ds := Get(root, "dataset");
      if !ds.String? { return; }
      WholeStringDecodes(ds.text);
      var ok, out := HexToBytes(ds.text, creds.dataset);
      creds := creds.(dataset := out);
      if !ok { return; }
      creds := creds.(has := true);
      creds := ParseDatasetMetadata(creds.dataset, creds);
      var host := Get(root, "borderAgentHost");
      if host.String? { creds := creds.(host := host.text); }
      var at := Get(root, "fetchedAt");
      if at.Number? { creds := creds.(fetchedAt := DoubleToI64(at.value)); }
    }

    /** thread_credentials_clear. */
    method Clear(size: int, written: bool) returns (err: Err)
      modifies this
      ensures creds == NO_CREDS && err == if written then Ok else Fail
      ensures file == if written then File(size, Some(SavedJson(NO_CREDS))) else Missing
    {
      creds := NO_CREDS;
      file := Missing;
      err := PersistLocked(size, written);
    }
  }

  /** The document of a record, field by field. */
  lemma SavedFields(c: Creds)
    requires c.has
    ensures var j := SavedJson(c);
      Get(j, "hasCredentials") == Bool(true) && Get(j, "dataset") == String(HexOf(c.dataset))
      && Get(j, "borderAgentHost") == String(CString(c.host))
      && Get(j, "fetchedAt") == Number(SignedDouble(c.fetchedAt))
  {
    hide HexOf, CString, SignedDouble;
    var f := SavedJson(c).fields;
    LookupAt(f, 0);
    LookupAt(f, 1);
    assert "borderAgentHost"[0] != "networkName"[0];
    LookupAt(f, 6);
    LookupAt(f, 7);
  }

  lemma SavedMetadata(c: Creds)
    requires c.has
    ensures var j := SavedJson(c);
      Get(j, "networkName") == String(CString(c.networkName)) && Get(j, "channel") == Number(c.channel)
      && Get(j, "panId") == Number(c.panId) && Get(j, "extPanId") == String(c.extPanId)
  {
    hide HexOf, CString, SignedDouble;
    var f := SavedJson(c).fields;
    LookupAt(f, 2);
    LookupAt(f, 3);
    LookupAt(f, 4);
    LookupAt(f, 5);
  }

  /** Without credentials the document says so and nothing else. */
  lemma SavedEmpty()
    ensures SavedJson(NO_CREDS) == Object([("hasCredentials", Bool(false))])
  {
  }

  /** A document counts as credentials exactly when it says so and its dataset is hex of either case; otherwise
      the record is as before, but for digits it may have taken up into the dataset. */
  lemma LoadAcceptsIff(c: Creds, root: Json)
    requires !c.has
    ensures LoadedCreds(c, root).has <==>
      Get(root, "hasCredentials") == Bool(true) && Get(root, "dataset").String? && IsHex(Get(root, "dataset").text)
    ensures !LoadedCreds(c, root).has ==> LoadedCreds(c, root).(dataset := c.dataset) == c
    ensures LoadedCreds(c, root).has ==>
      && LoadedCreds(c, root).dataset == DecodedPairs(Get(root, "dataset").text)
      && (var host := Get(root, "borderAgentHost");
          LoadedCreds(c, root).host == if host.String? then host.text else c.host)
      && (var at := Get(root, "fetchedAt"); !at.Number? ==> LoadedCreds(c, root).fetchedAt == c.fetchedAt)
  {
    hide NoteAll, Entries, DecodedPairs, IsHex, DoubleToI64;
    if Get(root, "dataset").String? {
      var d := DecodedPairs(Get(root, "dataset").text);
      WholeStringDecodes(Get(root, "dataset").text);
      NotesKeepTheRest(c.(dataset := d, has := true), Entries(d));
    }
  }

  /** Whatever metadata a file claims, only its dataset decides the metadata loaded. */
  lemma MetadataIsRecomputed(root: Json, d: Bytes)
    requires Get(root, "hasCredentials") == Bool(true) && Get(root, "dataset") == String(HexOf(d))
    ensures var c, n := LoadedCreds(NO_CREDS, root), NoteAll(NO_CREDS, Entries(d));
      c.has && c.dataset == d && c.channel == n.channel && c.panId == n.panId
      && c.extPanId == n.extPanId && c.networkName == n.networkName
    ensures Describes(Entries(d), LoadedCreds(NO_CREDS, root))
  {
    hide Get, NoteAll, Entries, HexOf, DecodedPairs, DoubleToI64;
    HexRoundTrip(d);
    NotesKeepTheRest(NO_CREDS.(dataset := d, has := true), Entries(d));
    NotesCommute(NO_CREDS.(dataset := d, has := true), NO_CREDS, Entries(d));
    NotesDescribe(NO_CREDS, Entries(d));
    SameDescription(Entries(d), NoteAll(NO_CREDS, Entries(d)), LoadedCreds(NO_CREDS, root));
  }

  /** A time that survives the trip through a double; every |t| up to 2^53 is one. */
  ghost predicate ExactTime(t: int) {
    (if t < 0 then -t else t) % Ulp(if t < 0 then -t else t) == 0
  }

  lemma TimeReloads(t: int)
    requires -0x8000_0000_0000_0000 <= t < 0x8000_0000_0000_0000
    ensures DoubleToI64(SignedDouble(t)) == t <==> ExactTime(t)
    ensures -0x20_0000_0000_0000 <= t <= 0x20_0000_0000_0000 ==> ExactTime(t)
  {
    RoundsToItself(if t < 0 then -t else t);
  }

  /** Storing and loading into an empty record gives the stored record back, metadata included,
      exactly when the time fits a double. */
  lemma StoreReloads(dataset: Bytes, host: Option<string>, now: int)
    requires -0x8000_0000_0000_0000 <= now < 0x8000_0000_0000_0000
    ensures var c := Stored(dataset, host, now);
      LoadedCreds(NO_CREDS, SavedJson(c)) == c <==> ExactTime(now)
  {
    hide Get, SavedJson, NoteAll, Entries, HexOf, DecodedPairs, SignedDouble, DoubleToI64, ExactTime;
    var c := Stored(dataset, host, now);
    NotesKeepTheRest(NO_CREDS.(has := true, dataset := dataset), Entries(dataset));
    SavedFields(c);
    HexRoundTrip(dataset);
    TimeReloads(now);
    if host.Some? { assert '\0' !in CString(host.value) by { CStringEnds(host.value); } }
  }

  /** Store, restart, load. A text longer than the loader accepts comes back as no credentials. */
  method StoreAndRestart(dataset: Bytes, host: Option<string>, now: int, size: int) returns (restarted: CredentialStore)
    requires 0 < |dataset| <= 256
    requires -0x8000_0000_0000_0000 <= now < 0x8000_0000_0000_0000
    ensures 0 < size <= 4096 ==>
      Keeps(restarted.creds, dataset, host) && (restarted.creds.fetchedAt == now <==> ExactTime(now))
    ensures 0 < size <= 4096 ==>
      (restarted.creds == Stored(dataset, host, now) <==> ExactTime(now))
    ensures !(0 < size <= 4096) ==> restarted.creds == Creds(false, [], "", -1, -1, "", "", 0)
  {
    var store := new CredentialStore(Missing);
    var err := store.Store(Some(dataset), host, now, size, true);
    restarted := new CredentialStore(store.file);
    restarted.LoadFromDisk();
    StoreReloads(dataset, host, now);
    StoredKeeps(dataset, host, now);
    StoreReloadsButTime(dataset, host, now);
    hide Stored, Describes;
  }

  /** Whatever becomes of the time, everything else comes back. */
  lemma StoreReloadsButTime(dataset: Bytes, host: Option<string>, now: int)
    requires -0x8000_0000_0000_0000 <= now < 0x8000_0000_0000_0000
    ensures var c := Stored(dataset, host, now);
      LoadedCreds(NO_CREDS, SavedJson(c)) == c.(fetchedAt := DoubleToI64(SignedDouble(now)))
    ensures Keeps(LoadedCreds(NO_CREDS, SavedJson(Stored(dataset, host, now))), dataset, host)
    ensures DoubleToI64(SignedDouble(now)) == now <==> ExactTime(now)
  {
    hide Get, SavedJson, NoteAll, Entries, HexOf, DecodedPairs, SignedDouble, DoubleToI64, ExactTime, Describes;
    var c := Stored(dataset, host, now);
    NotesKeepTheRest(NO_CREDS.(has := true, dataset := dataset), Entries(dataset));
    SavedFields(c);
    HexRoundTrip(dataset);
    TimeReloads(now);
    StoredKeeps(dataset, host, now);
    if host.Some? { CStringEnds(host.value); }
    SameDescription(Entries(dataset), c, c.(fetchedAt := DoubleToI64(SignedDouble(now))));
  }
}
