/** Internal keys: a user key and a tag of 64 bits, made of a sequence number and a flag. */
module Tags {

  import opened Common
  import opened Varint

  const TWO56: nat := 0x100_0000_0000_0000

  /** `Tag::Encode`: the number is shifted up by eight bits in a word of 64. */
  function Encode(number: nat, flag: Byte): (tag: nat)
    ensures tag < TWO64
  {
    number * 256 % TWO64 + flag
  }

  /** `Tag::Decode`. */
  function Decode(tag: nat): (nat, Byte) {
    (tag / 256, tag % 256)
  }

  /** A tag keeps the flag and 56 bits of the number. */
  lemma TagKeeps(number: nat, flag: Byte)
    ensures Decode(Encode(number, flag)) == (number % TWO56, flag)
    ensures Encode(number, flag) % 256 == flag && Encode(number, flag) / 256 == number % 0x100_0000_0000_0000
  {
    assert number * 256 % TWO64 == number % TWO56 * 256;
  }

  /** Tags are ordered by the number first, and by the flag among equal numbers. */
  lemma TagsAscend(a: nat, b: nat, flag: Byte, other: Byte)
    requires a < TWO56 && b < TWO56
    ensures Encode(a, flag) < Encode(b, other) <==> a < b || (a == b && flag < other)
  {
    TagKeeps(a, flag);
    TagKeeps(b, other);
  }

  /** Decoding undoes encoding if and only if the number has at most 56 bits. */
  lemma TagRoundTrip(number: nat, flag: Byte)
    ensures Decode(Encode(number, flag)) == (number, flag) <==> number < TWO56
  {
    TagKeeps(number, flag);
  }

  /** The first number that is lost; the source's own check admits it. */
  lemma FirstLostNumber(flag: Byte)
    ensures TWO56 < 0x200_0000_0000_0000 && Decode(Encode(TWO56, flag)) == (0, flag)
  {
    TagKeeps(TWO56, flag);
  }

  /** Two numbers with the same tag differ by a multiple of 2^56, so kept numbers have tags of their own. */
  lemma TagsDiffer(a: nat, b: nat, flag: Byte, other: Byte)
    requires a < TWO56 && b < TWO56 && Encode(a, flag) == Encode(b, other)
    ensures a == b && flag == other
  {
    TagRoundTrip(a, flag);
    TagRoundTrip(b, other);
  }

  // ----- internal keys as bytes

  /** `KeyBoundle::MakeKey`: the user key and the tag behind it. */
  function MakeKey(user: Bytes, number: nat, flag: Byte): Bytes {
    user + Fixed(8, Encode(number, flag))
  }

  /** `KeyBoundle::ParseTaggedKey`: fails on a key that is shorter than a tag. */
  function ParseTaggedKey(key: Bytes): Option<(Bytes, (nat, Byte))> {
    var n := |key| - 8;
    if n < 0 then None else Some((key[..n], Decode(FromFixed(key[n..]))))
  }

  /** Parsing gives back the user key and what the tag kept, for every user key. */
  lemma ParseUndoesMake(user: Bytes, number: nat, flag: Byte)
    ensures ParseTaggedKey(MakeKey(user, number, flag)) == Some((user, (number % TWO56, flag)))
    ensures ParseTaggedKey(MakeKey(user, number, flag)) == Some((user, (number, flag))) <==> number < TWO56
  {
    hide Fixed, FromFixed, Pow2;
    var key, tag := MakeKey(user, number, flag), Encode(number, flag);
    assert key[..|user|] == user && key[|user|..] == Fixed(8, tag);
    FixedWidths();
    FixedRoundTrip(8, tag);
    TagKeeps(number, flag);
  }
}
