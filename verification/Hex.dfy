/** The hex helpers of thread_credentials.cpp. */
module Hex {
  import opened CTypes

  type Bytes = seq<U8>

  const DIGITS: string := "0123456789ABCDEF"

  /** The two digits of a byte. */
  function Pair(b: U8): (r: string)
    ensures |r| == 2
  {
    [DIGITS[b / 16], DIGITS[b % 16]]
  }

  function HexOf(data: Bytes): (r: string)
    ensures |r| == 2 * |data|
  {
    if data == [] then [] else HexOf(data[..|data| - 1]) + Pair(data[|data| - 1])
  }

  /** The upper-case digit of a number below 16. */
  predicate IsDigitOf(c: char, n: nat) {
    if n < 10 then c as int == 48 + n else c as int == 65 + n - 10
  }

  /** Two digits for each byte in order, the high one first. */
  lemma {:induction false} HexSpelled(data: Bytes, i: nat)
    requires i < |data|
    ensures IsDigitOf(HexOf(data)[2 * i], data[i] / 16) && IsDigitOf(HexOf(data)[2 * i + 1], data[i] % 16)
  {
    var n := |data| - 1;
    if i < n {
      HexSpelled(data[..n], i);
    } else {
      DigitSpelled(data[n] / 16);
      DigitSpelled(data[n] % 16);
    }
  }

  lemma DigitSpelled(n: nat)
    requires n < 16
    ensures IsDigitOf(DIGITS[n], n)
  {
    assert DIGITS == "0123456789ABCDEF";
  }

  /** The value of a hex digit of either case, -1 for any other character. */
  function Nibble(c: char): (n: int)
    ensures -1 <= n < 16
  {
    if '0' <= c <= '9' then c as int - '0' as int
    else if 'a' <= c <= 'f' then c as int - 'a' as int + 10
    else if 'A' <= c <= 'F' then c as int - 'A' as int + 10
    else -1
  }

  /** The pairs decoded before the first character that is no hex digit. */
  function DecodedPairs(hex: string): Bytes {
    if |hex| < 2 || Nibble(hex[0]) < 0 || Nibble(hex[1]) < 0 then []
    else [Nibble(hex[0]) * 16 + Nibble(hex[1])] + DecodedPairs(hex[2..])
  }

  ghost predicate IsHex(hex: string) {
    |hex| % 2 == 0 && forall i :: 0 <= i < |hex| ==> Nibble(hex[i]) >= 0
  }

  lemma NoPairs(hex: string)
    requires |hex| < 2
    ensures DecodedPairs(hex) == []
  {
  }

  lemma PairsStep(hex: string)
    requires |hex| >= 2
    ensures var hi, lo := Nibble(hex[0]), Nibble(hex[1]);
      DecodedPairs(hex) == if hi < 0 || lo < 0 then [] else [hi * 16 + lo] + DecodedPairs(hex[2..])
  {
  }

  /** bytes_to_hex. */
  method BytesToHex(data: Bytes) returns (out: string)
    ensures out == HexOf(data)
  {
    out := "";
    for i := 0 to |data|
      invariant out == HexOf(data[..i])
    {
      assert data[..i + 1][..i] == data[..i];
      out := out + [DIGITS[data[i] / 16]];
      out := out + [DIGITS[data[i] % 16]];
    }
    assert data[..|data|] == data;
  }

  /** hex_to_bytes: an odd length leaves the output alone; a bad digit leaves what came before it. */
  method HexToBytes(hex: string, current: Bytes) returns (ok: bool, out: Bytes)
    ensures ok <==> IsHex(hex)
    ensures out == if |hex| % 2 != 0 then current else DecodedPairs(hex)
  {
    hide Nibble, DecodedPairs;
    if |hex| % 2 != 0 { return false, current; }
    out := [];
    var i := 0;
    while i < |hex|
      invariant 0 <= i <= |hex| && i % 2 == 0
      invariant forall k :: 0 <= k < i ==> Nibble(hex[k]) >= 0
      invariant DecodedPairs(hex) == out + DecodedPairs(hex[i..])
    {
      var hi, lo := Nibble(hex[i]), Nibble(hex[i + 1]);
      PairsStep(hex[i..]);
      assert hex[i..][2..] == hex[i + 2..];
      if hi < 0 || lo < 0 {
        return false, out;
      }
      out := out + [hi * 16 + lo];
      i := i + 2;
    }
    NoPairs(hex[i..]);
    ok := true;
  }

  lemma DigitValue(n: nat)
    requires n < 16
    ensures Nibble(DIGITS[n]) == n
  {
  }

  lemma {:induction false} PairsAppend(hex: string, more: string)
    requires IsHex(hex)
    ensures DecodedPairs(hex + more) == DecodedPairs(hex) + DecodedPairs(more)
  {
    hide Nibble, DecodedPairs;
    if hex == "" {
      assert hex + more == more;
      NoPairs("");
    } else {
      assert (hex + more)[2..] == hex[2..] + more;
      TailIsHex(hex);
      PairsStep(hex);
      PairsStep(hex + more);
      PairsAppend(hex[2..], more);
    }
  }

  lemma PairDecodes(b: U8)
    ensures IsHex(Pair(b)) && DecodedPairs(Pair(b)) == [b]
  {
    DigitValue(b / 16);
    DigitValue(b % 16);
    assert Pair(b)[2..] == [];
  }

  /** Decoding undoes encoding, for every byte string. */
  lemma {:induction false} HexRoundTrip(data: Bytes)
    ensures IsHex(HexOf(data)) && DecodedPairs(HexOf(data)) == data
  {
    hide Nibble, DecodedPairs, Pair;
    if data == [] {
      NoPairs("");
    } else {
      var n := |data| - 1;
      HexRoundTrip(data[..n]);
      PairDecodes(data[n]);
      PairsAppend(HexOf(data[..n]), Pair(data[n]));
      assert data == data[..n] + [data[n]];
    }
  }

  function Upper(c: char): char {
    if 'a' <= c <= 'f' then (c as int - 'a' as int + 'A' as int) as char else c
  }

  lemma DigitOfNibble(c: char)
    requires Nibble(c) >= 0
    ensures DIGITS[Nibble(c)] == Upper(c)
  {
    var n := Nibble(c);
    assert n < 10 ==> DIGITS[n] as int == '0' as int + n;
    assert n >= 10 ==> DIGITS[n] as int == 'A' as int + n - 10;
  }

  lemma {:induction false} HexOfCons(b: U8, data: Bytes)
    ensures HexOf([b] + data) == Pair(b) + HexOf(data)
  {
    hide Pair;
    if data == [] {
      assert [b] + data == [b];
      assert [b][..0] == [];
    } else {
      var n := |data| - 1;
      HexOfCons(b, data[..n]);
      assert ([b] + data)[..n + 1] == [b] + data[..n];
    }
  }

  lemma PairNormalises(hex: string)
    requires |hex| >= 2 && IsHex(hex)
    ensures Nibble(hex[0]) >= 0 && Nibble(hex[1]) >= 0
    ensures var b := Nibble(hex[0]) * 16 + Nibble(hex[1]);
      Pair(b) == [Upper(hex[0]), Upper(hex[1])] && IsHex(hex[2..])
      && HexOf(DecodedPairs(hex)) == Pair(b) + HexOf(DecodedPairs(hex[2..]))
  {
    hide Pair, Nibble, Upper, HexOf, DecodedPairs;
    PairsStep(hex);
    assert Nibble(hex[0]) >= 0 && Nibble(hex[1]) >= 0;
    var b := Nibble(hex[0]) * 16 + Nibble(hex[1]);
    PairOfNibbles(hex[0], hex[1]);
    HexOfCons(b, DecodedPairs(hex[2..]));
    TailIsHex(hex);
  }

  lemma TailIsHex(hex: string)
    requires |hex| >= 2 && IsHex(hex)
    ensures IsHex(hex[2..])
  {
    hide Nibble;
    assert forall i :: 0 <= i < |hex| - 2 ==> hex[2..][i] == hex[i + 2];
  }

  lemma PairOfNibbles(hi: char, lo: char)
    requires Nibble(hi) >= 0 && Nibble(lo) >= 0
    ensures Pair(Nibble(hi) * 16 + Nibble(lo)) == [Upper(hi), Upper(lo)]
  {
    hide Nibble, Upper, DIGITS;
    SplitByte(Nibble(hi), Nibble(lo));
    DigitOfNibble(hi);
    DigitOfNibble(lo);
  }

  lemma SplitByte(hi: nat, lo: nat)
    requires lo < 16
    ensures (hi * 16 + lo) / 16 == hi && (hi * 16 + lo) % 16 == lo
  {
  }

  function UpperCase(s: string): (r: string)
    ensures |r| == |s| && forall i :: 0 <= i < |s| ==> r[i] == Upper(s[i])
  {
    if s == "" then "" else UpperCase(s[..|s| - 1]) + [Upper(s[|s| - 1])]
  }

  /** Encoding undoes decoding up to the case of the digits. */
  lemma {:induction false} HexNormalises(hex: string)
    requires IsHex(hex)
    ensures HexOf(DecodedPairs(hex)) == UpperCase(hex)
  {
    hide Nibble, Pair, DecodedPairs, HexOf;
    if hex == "" {
      NoPairs("");
      NoBytes();
    } else {
      PairNormalises(hex);
      HexNormalises(hex[2..]);
      assert UpperCase(hex) == [Upper(hex[0]), Upper(hex[1])] + UpperCase(hex[2..]);
    }
  }

  lemma NoBytes()
    ensures HexOf([]) == ""
  {
  }
}
