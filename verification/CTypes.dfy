/** C integer widths, and the Option type used where the firmware keeps a presence flag. */
module CTypes {

  /** The esp_err_t values that the modelled calls return. */
  datatype Err = Ok | Fail | NoMem | InvalidArg | InvalidSize | NotFound | Timeout

  datatype Option<+T> = None | Some(value: T) {
    predicate IsFailure() {
      None?
    }

    function PropagateFailure<U>(): Option<U>
      requires None?
    {
      None
    }

    function Extract(): T
      requires Some?
    {
      value
    }

    function GetOr(default: T): T {
      if Some? then value else default
    }
  }

  type U8 = x: int | 0 <= x < 0x100
  type U16 = x: int | 0 <= x < 0x1_0000
  type U32 = x: int | 0 <= x < 0x1_0000_0000
  type U64 = x: int | 0 <= x < 0x1_0000_0000_0000_0000

  /** Two bytes, high one first, and the bytes of a 16-bit number. */
  function Word(hi: U8, lo: U8): U16 {
    (hi as int) * 256 + lo as int
  }

  function Hi(n: U16): U8 {
    n / 256
  }

  function Lo(n: U16): U8 {
    n % 256
  }

  lemma WordOfBytes(n: U16, hi: U8, lo: U8)
    ensures Word(Hi(n), Lo(n)) == n
    ensures Hi(Word(hi, lo)) == hi && Lo(Word(hi, lo)) == lo
  {
  }

  ghost predicate NoDuplicates<T>(s: seq<T>) {
    forall i, j :: 0 <= i < j < |s| ==> s[i] != s[j]
  }

  /** Appends x unless it is already listed, as the `found` loops of the firmware do. */
  function AddOnce<T(==,!new)>(s: seq<T>, x: T): (r: seq<T>)
    ensures forall y :: y in r <==> y in s || y == x
    ensures NoDuplicates(s) ==> NoDuplicates(r)
    ensures s <= r
  {
    if x in s then s else s + [x]
  }

  /** Appends, in order, the elements not already there. */
  function AddAllOnce<T(==,!new)>(s: seq<T>, more: seq<T>): (r: seq<T>)
    ensures forall y :: y in r <==> y in s || y in more
    ensures NoDuplicates(s) ==> NoDuplicates(r)
  {
    if more == [] then s else AddOnce(AddAllOnce(s, more[..|more| - 1]), more[|more| - 1])
  }

  /** A duplicate-free list over a finite set is no longer than the set is large. */
  lemma {:induction false} DistinctFits<T>(s: seq<T>, u: set<T>)
    requires NoDuplicates(s) && forall x :: x in s ==> x in u
    ensures |s| <= |u|
  {
    if s != [] {
      var rest := s[..|s| - 1];
      assert forall x :: x in rest ==> x in s;
      DistinctFits(rest, u - {s[|s| - 1]});
    }
  }
}
