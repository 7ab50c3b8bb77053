/** What several parts of the store share. */
module Common {

  /** Keys are reals. Only their order is ever used, and every countable total order (byte
      strings under any comparator included) embeds in the rationals. */
  type Key = real

  type Byte = b: int | 0 <= b < 256

  type Bytes = seq<Byte>

  datatype Option<T> = None | Some(value: T)

  /** The first position from `i` on that holds nothing of the kind. */
  function FirstNot<T>(s: seq<T>, kind: T -> bool, i: nat): (r: nat)
    requires i <= |s|
    ensures i <= r <= |s|
    ensures forall j :: i <= j < r ==> kind(s[j])
    ensures r < |s| ==> !kind(s[r])
    decreases |s| - i
  {
    if i == |s| || !kind(s[i]) then i else FirstNot(s, kind, i + 1)
  }
}
