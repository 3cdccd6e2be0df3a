/** Saved state as cJSON holds it in memory: the text itself is not modelled. */
module Json {
  import opened CTypes

  datatype Json =
    | Null
    | Bool(b: bool)
    | Number(value: int)
    | String(text: string)
    | Array(items: seq<Json>)
    | Object(fields: seq<(string, Json)>)

  /** A file as a loader meets it: its size, and its parse unless cJSON rejects the text. */
  datatype File = Missing | File(size: int, root: Option<Json>)

  /** cJSON_GetObjectItemCaseSensitive: the first field of that name, Null when there is none. */
  function Get(j: Json, key: string): Json {
    if j.Object? then Lookup(j.fields, key) else Null
  }

  function Lookup(fields: seq<(string, Json)>, key: string): Json {
    if fields == [] then Null
    else if fields[0].0 == key then fields[0].1
    else Lookup(fields[1..], key)
  }

  lemma {:induction false} LookupAt(fields: seq<(string, Json)>, i: nat)
    requires i < |fields| && forall j :: 0 <= j < i ==> fields[j].0 != fields[i].0
    ensures Lookup(fields, fields[i].0) == fields[i].1
  {
    if i > 0 {
      LookupAt(fields[1..], i - 1);
    }
  }

  lemma {:induction false} LookupNone(fields: seq<(string, Json)>, key: string)
    requires forall j :: 0 <= j < |fields| ==> fields[j].0 != key
    ensures Lookup(fields, key) == Null
  {
    if fields != [] {
      LookupNone(fields[1..], key);
    }
  }

  /** What cJSON_ArrayForEach visits. */
  function Children(j: Json): seq<Json> {
    match j
    case Array(items) => items
    case Object(fields) => seq(|fields|, i requires 0 <= i < |fields| => fields[i].1)
    case _ => []
  }

  /** The C string that a C++ string becomes: everything before the first NUL. */
  function CString(s: string): (r: string)
    ensures r <= s
    ensures r == s <==> '\0' !in s
  {
    if s == [] || s[0] == '\0' then [] else
    assert s == [s[0]] + s[1..];
    [s[0]] + CString(s[1..])
  }

  /** The distance between neighbouring doubles around n: 1 below 2^53, doubling from there on. */
  function Ulp(n: nat): (u: nat)
    ensures u > 0
    ensures n < 0x20_0000_0000_0000 <==> u == 1
  {
    if n < 0x20_0000_0000_0000 then 1 else 2 * Ulp(n / 2)
  }

  /** (double)n for an unsigned integer: the nearest multiple of the spacing, ties to even. */
  function ToDouble(n: nat): int {
    var u := Ulp(n);
    var q, r := n / u, n % u;
    if 2 * r > u || (2 * r == u && q % 2 == 1) then (q + 1) * u else q * u
  }

  lemma RoundsToItself(n: nat)
    ensures ToDouble(n) == n <==> n % Ulp(n) == 0
    ensures n <= 0x20_0000_0000_0000 ==> ToDouble(n) == n
  {
    var u := Ulp(n);
    var q, r := n / u, n % u;
    assert n == q * u + r;
    assert (q + 1) * u == q * u + u;
    if n == 0x20_0000_0000_0000 {
      assert Ulp(n) == 2 * Ulp(n / 2) == 2;
    }
  }

  /** (uint64_t)valuedouble and (uint32_t)valuedouble. Out of range C leaves the result undefined;
      here it is 0. */
  function DoubleToU64(v: int): U64 {
    if 0 <= v < 0x1_0000_0000_0000_0000 then v else 0
  }

  function DoubleToU32(v: int): U32 {
    if 0 <= v < 0x1_0000_0000 then v else 0
  }

  /** cJSON's valueint: the number saturated to the range of int. */
  function ValueInt(v: int): int {
    if v >= 0x7FFF_FFFF then 0x7FFF_FFFF else if v <= -0x8000_0000 then -0x8000_0000 else v
  }
}
