/** Bytes, fixed-width integers and variable-length integers, as the store writes them. */
module Varint {

  import opened Common

  const TWO64: nat := 0x1_0000_0000_0000_0000

  function Pow2(n: nat): (p: nat)
    ensures p >= 1
  {
    if n == 0 then 1 else 2 * Pow2(n - 1)
  }

  lemma {:induction false} Pow2Add(m: nat, n: nat)
    ensures Pow2(m + n) == Pow2(m) * Pow2(n)
  {
    if m > 0 {
      Pow2Add(m - 1, n);
    }
  }

  // ----- fixed width, least significant byte first

  function Fixed(width: nat, v: nat): (bytes: Bytes)
    ensures |bytes| == width
  {
    if width == 0 then [] else [v % 256] + Fixed(width - 1, v / 256)
  }

  function FromFixed(bytes: Bytes): nat {
    if bytes == [] then 0 else bytes[0] + 256 * FromFixed(bytes[1..])
  }

  lemma {:induction false} FixedRoundTrip(width: nat, v: nat)
    requires v < Pow2(8 * width)
    ensures FromFixed(Fixed(width, v)) == v
  {
    if width > 0 {
      hide Fixed, FromFixed, Pow2;
      OneByteMore(width - 1);
      FixedRoundTrip(width - 1, v / 256);
      FixedStep(width - 1, v);
      FromFixedStep(Fixed(width - 1, v / 256), v % 256);
    } else {
      assert Fixed(0, v) == [];
    }
  }

  lemma OneByteMore(width: nat)
    ensures Pow2(8 * width + 8) == 256 * Pow2(8 * width)
  {
    Pow2Add(8, 8 * width);
    assert Pow2(8) == 256;
  }

  lemma FixedWidths()
    ensures Pow2(16) == 0x1_0000 && Pow2(32) == 0x1_0000_0000 && Pow2(64) == TWO64
  {
    assert Pow2(8) == 256;
    Pow2Add(8, 8);
    Pow2Add(16, 16);
    Pow2Add(32, 32);
  }

  /** The bytes of fixed-width numbers, written out. */
  lemma FixedBytes(v: nat)
    ensures Fixed(2, v) == [v % 256, v / 0x100 % 256]
    ensures Fixed(4, v) == [v % 256, v / 0x100 % 256, v / 0x1_0000 % 256, v / 0x100_0000 % 256]
  {
    FixedStep(1, v);
    FixedStep(3, v);
    FixedStep(2, v / 0x100);
    FixedStep(1, v / 0x100);
    FixedStep(1, v / 0x1_0000);
    FixedStep(0, v / 0x100);
    FixedStep(0, v / 0x100_0000);
    assert v / 0x100 / 256 == v / 0x1_0000 && v / 0x1_0000 / 256 == v / 0x100_0000;
  }

  lemma FixedStep(width: nat, v: nat)
    ensures Fixed(0, v) == [] && Fixed(width + 1, v) == [v % 256] + Fixed(width, v / 256)
  {
  }

  lemma FromFixedBytes(a: Byte, b: Byte, c: Byte, d: Byte)
    ensures FromFixed([a, b]) == a + 0x100 * b
    ensures FromFixed([a, b, c, d]) == a + 0x100 * b + 0x1_0000 * c + 0x100_0000 * d
  {
    hide FromFixed;
    FromFixedStep([], d);
    FromFixedStep([], b);
    FromFixedStep([b], a);
    FromFixedStep([d], c);
    FromFixedStep([c, d], b);
    FromFixedStep([b, c, d], a);
    assert [d] == [d] + [] && [c, d] == [c] + [d] && [b, c, d] == [b] + [c, d] && [a, b, c, d] == [a] + [b, c, d];
    assert [b] == [b] + [] && [a, b] == [a] + [b];
  }

  lemma FromFixedStep(bytes: Bytes, b: Byte)
    ensures FromFixed([]) == 0 && FromFixed([b] + bytes) == b + 256 * FromFixed(bytes)
  {
    assert ([b] + bytes)[1..] == bytes;
  }

  // ----- variable width, most significant group of seven bits first

  /** The groups above the last one, each marked as not the last. */
  function Leading(v: nat): Bytes {
    if v < 128 then [v + 128] else Leading(v / 128) + [v % 128 + 128]
  }

  /** The format: groups of seven bits, most significant first, without leading zero groups. */
  function Groups(v: nat): Bytes {
    if v < 128 then [v] else Leading(v / 128) + [v % 128]
  }

  /** `Varint64::Decode` from a position on: the value in 64-bit arithmetic, and the position
      behind it; `None` where the code would run past the buffer. */
  function DecodeFrom(buf: Bytes, pos: nat, out: nat): (r: Option<(nat, nat)>)
    requires pos <= |buf|
    ensures r.Some? ==> pos < r.value.1 <= |buf|
    decreases |buf| - pos
  {
    if pos == |buf| then None
    else if buf[pos] >= 128 then DecodeFrom(buf, pos + 1, (out + (buf[pos] - 128)) * 128 % TWO64)
    else Some((out + buf[pos], pos + 1))
  }

  /** Whatever the bytes, the result is a 64-bit word. */
  lemma {:induction false} DecodedIsWord(buf: Bytes, pos: nat, out: nat)
    requires pos <= |buf| && out % 128 == 0 && out < TWO64
    ensures DecodeFrom(buf, pos, out).Some? ==> DecodeFrom(buf, pos, out).value.0 < TWO64
    decreases |buf| - pos
  {
    if pos < |buf| {
      if buf[pos] >= 128 {
        ShiftedIsWord(out + (buf[pos] - 128));
        DecodedIsWord(buf, pos + 1, (out + (buf[pos] - 128)) * 128 % TWO64);
      } else {
        LastIsWord(out, buf[pos]);
      }
    }
  }

  lemma ShiftedIsWord(x: nat)
    ensures x * 128 % TWO64 % 128 == 0
  {
    var q := x * 128 / TWO64;
    assert x * 128 % TWO64 == 128 * (x - q * 0x200_0000_0000_0000);
  }

  lemma LastIsWord(out: nat, b: Byte)
    requires out % 128 == 0 && out < TWO64 && b < 128
    ensures out + b < TWO64
  {
  }

  /** The decoding loop. */
  method Decode(buf: Bytes, pos: nat) returns (r: Option<(nat, nat)>)
    requires pos <= |buf|
    ensures r == DecodeFrom(buf, pos, 0)
  {
    var out: nat, i: nat := 0, pos;
    while i < |buf| && buf[i] >= 128
      invariant pos <= i <= |buf| && DecodeFrom(buf, pos, 0) == DecodeFrom(buf, i, out)
    {
      out := (out + (buf[i] - 128)) * 128 % TWO64;
      i := i + 1;
    }
    if i == |buf| {
      return None;
    }
    return Some((out + buf[i], i + 1));
  }

  /** The bytes `s` stand at a position of the buffer. */
  ghost predicate StandsAt(buf: Bytes, pos: nat, s: Bytes) {
    pos + |s| <= |buf| && forall i :: 0 <= i < |s| ==> buf[pos + i] == s[i]
  }

  lemma StandsApart(buf: Bytes, pos: nat, s: Bytes, t: Bytes)
    requires StandsAt(buf, pos, s + t)
    ensures StandsAt(buf, pos, s) && StandsAt(buf, pos + |s|, t)
  {
    assert forall i :: 0 <= i < |s| ==> (s + t)[i] == s[i];
    forall i | 0 <= i < |t|
      ensures buf[pos + |s| + i] == t[i]
    {
      assert (s + t)[|s| + i] == t[i];
    }
  }

  lemma StandsWithin(buf: Bytes, pos: nat, s: Bytes)
    requires StandsAt(buf, pos, s)
    ensures pos + |s| <= |buf|
  {
  }

  lemma StandsFirst(buf: Bytes, pos: nat, s: Bytes)
    requires StandsAt(buf, pos, s) && s != []
    ensures pos < |buf| && buf[pos] == s[0]
  {
    assert buf[pos + 0] == s[0];
  }

  lemma DecodeStep(buf: Bytes, pos: nat, out: nat, v: nat)
    requires pos < |buf| && buf[pos] >= 128 && out + (buf[pos] - 128) == v && v * 128 < TWO64
    ensures DecodeFrom(buf, pos, out) == DecodeFrom(buf, pos + 1, v * 128)
  {
    hide DecodeFrom;
    DecodeGroup(buf, pos, out);
    assert v * 128 % TWO64 == v * 128;
  }

  /** Reading the leading groups of a number shifts it in, as long as it fits. */
  lemma {:induction false} DecodeLeading(buf: Bytes, pos: nat, v: nat)
    requires StandsAt(buf, pos, Leading(v)) && v * 128 < TWO64
    ensures pos + |Leading(v)| <= |buf|
    ensures DecodeFrom(buf, pos, 0) == DecodeFrom(buf, pos + |Leading(v)|, v * 128)
  {
    hide DecodeFrom;
    if v >= 128 {
      var w := v / 128;
      StandsApart(buf, pos, Leading(w), [v % 128 + 128]);
      DecodeLeading(buf, pos, w);
      StandsFirst(buf, pos + |Leading(w)|, [v % 128 + 128]);
      DecodeStep(buf, pos + |Leading(w)|, w * 128, v);
    } else {
      StandsFirst(buf, pos, Leading(v));
      DecodeStep(buf, pos, 0, v);
    }
  }

  /** Decoding undoes encoding, wherever the number stands and whatever follows it. */
  lemma DecodeUndoesGroups(buf: Bytes, pos: nat, v: nat)
    requires v < TWO64 && StandsAt(buf, pos, Groups(v))
    ensures DecodeFrom(buf, pos, 0) == Some((v, pos + |Groups(v)|))
  {
    if v >= 128 {
      StandsApart(buf, pos, Leading(v / 128), [v % 128]);
      DecodeLeading(buf, pos, v / 128);
      StandsFirst(buf, pos + |Leading(v / 128)|, [v % 128]);
    } else {
      StandsFirst(buf, pos, Groups(v));
    }
  }

  /** The value of groups of seven bits, the most significant first. */
  ghost function GroupValue(bytes: Bytes): nat {
    if bytes == [] then 0 else GroupValue(bytes[..|bytes| - 1]) * 128 + bytes[|bytes| - 1] % 128
  }

  lemma GroupValueOfAppended(bytes: Bytes, b: Byte)
    ensures GroupValue(bytes + [b]) == GroupValue(bytes) * 128 + b % 128
  {
    assert (bytes + [b])[..|bytes|] == bytes;
  }

  ghost predicate Marked(bytes: Bytes) {
    forall i :: 0 <= i < |bytes| ==> bytes[i] >= 128
  }

  lemma {:induction false} LeadingIs(v: nat)
    ensures Leading(v) != [] && GroupValue(Leading(v)) == v && Marked(Leading(v)) && (v > 0 ==> Leading(v)[0] != 128)
  {
    if v >= 128 {
      LeadingIs(v / 128);
      GroupValueOfAppended(Leading(v / 128), v % 128 + 128);
    } else {
      GroupValueOfAppended([], v + 128);
      assert [] + [v + 128] == [v + 128];
    }
  }

  /** The format: groups with that value, all but the last marked, and no leading zero group. */
  lemma GroupsAre(v: nat)
    ensures var g := Groups(v);
      && g != [] && GroupValue(g) == v && g[|g| - 1] < 128 && Marked(g[..|g| - 1])
      && (|g| > 1 ==> g[0] != 128)
  {
    if v >= 128 {
      LeadingIs(v / 128);
      GroupValueOfAppended(Leading(v / 128), v % 128);
      assert Groups(v)[..|Groups(v)| - 1] == Leading(v / 128);
    } else {
      GroupValueOfAppended([], v);
      assert [] + [v] == [v];
    }
  }

  lemma ShiftIn(x: nat, c: nat)
    ensures (x % TWO64 + c) * 128 % TWO64 == (x + c) * 128 % TWO64
  {
    var q := x / TWO64;
    assert (x + c) * 128 == (x % TWO64 + c) * 128 + 128 * q * TWO64;
    WholeTurns((x % TWO64 + c) * 128, 128 * q);
  }

  lemma {:induction false} WholeTurns(x: nat, n: nat)
    ensures (x + n * TWO64) % TWO64 == x % TWO64
  {
    if n > 0 {
      WholeTurns(x, n - 1);
      assert x + n * TWO64 == x + (n - 1) * TWO64 + TWO64;
    }
  }

  lemma AddLast(g: nat, b: nat)
    requires b < 128
    ensures g * 128 % TWO64 + b == (g * 128 + b) % TWO64
  {
    assert g * 128 % TWO64 == g % 0x200_0000_0000_0000 * 128;
  }

  lemma NoGroups()
    ensures GroupValue([]) == 0
  {
  }

  lemma {:induction false} DecodeMarked(buf: Bytes, pos: nat, n: nat)
    requires pos + n <= |buf| && Marked(buf[pos..pos + n])
    ensures DecodeFrom(buf, pos, 0) == DecodeFrom(buf, pos + n, GroupValue(buf[pos..pos + n]) * 128 % TWO64)
  {
    hide DecodeFrom, GroupValue;
    if n == 0 {
      NoGroups();
      assert buf[pos..pos + n] == [];
    } else {
      var front, b := buf[pos..pos + n - 1], buf[pos + n - 1];
      assert buf[pos..pos + n] == front + [b];
      assert b == buf[pos..pos + n][n - 1];
      assert forall i :: 0 <= i < n - 1 ==> front[i] == buf[pos..pos + n][i];
      DecodeMarked(buf, pos, n - 1);
      GroupValueOfAppended(front, b);
      DecodeGroup(buf, pos + n - 1, GroupValue(front) * 128 % TWO64);
      NextOut(GroupValue(front), b);
    }
  }

  lemma NextOut(v: nat, b: Byte)
    requires b >= 128
    ensures (v * 128 % TWO64 + (b - 128)) * 128 % TWO64 == (v * 128 + b % 128) * 128 % TWO64
  {
    ShiftIn(v * 128, b - 128);
  }

  lemma DecodeGroup(buf: Bytes, pos: nat, out: nat)
    requires pos < |buf|
    ensures buf[pos] >= 128 ==> DecodeFrom(buf, pos, out) == DecodeFrom(buf, pos + 1, (out + (buf[pos] - 128)) * 128 % TWO64)
    ensures buf[pos] < 128 ==> DecodeFrom(buf, pos, out) == Some((out + buf[pos], pos + 1))
  {
  }

  /** What decoding gives for any bytes: the value of the groups up to the first one that is not
      marked, in 64-bit arithmetic, and nothing if there is no such group. */
  lemma DecodeIs(buf: Bytes, pos: nat, n: nat)
    requires pos + n <= |buf| && Marked(buf[pos..pos + n]) && (pos + n < |buf| ==> buf[pos + n] < 128)
    ensures DecodeFrom(buf, pos, 0)
         == if pos + n == |buf| then None else Some((GroupValue(buf[pos..pos + n + 1]) % TWO64, pos + n + 1))
  {
    hide DecodeFrom, GroupValue;
    DecodeMarked(buf, pos, n);
    if pos + n < |buf| {
      var front, b := buf[pos..pos + n], buf[pos + n];
      assert buf[pos..pos + n + 1] == front + [b];
      GroupValueOfAppended(front, b);
      DecodeGroup(buf, pos + n, GroupValue(front) * 128 % TWO64);
      AddLast(GroupValue(front), b);
    } else {
      DecodeEnds(buf, GroupValue(buf[pos..pos + n]) * 128 % TWO64);
    }
  }

  lemma DecodeEnds(buf: Bytes, out: nat)
    ensures DecodeFrom(buf, |buf|, out) == None
  {
  }

  // ----- the encoding ladders

  /** A number without its `c` lowest groups of seven bits. */
  function Shift(v: nat, c: nat): nat {
    if c == 0 then v else Shift(v, c - 1) / 128
  }

  function Group(v: nat, c: nat): (b: Byte)
    ensures b < 128
  {
    Shift(v, c) % 128
  }

  /** The first group from the top that is not zero is group `c`, or `c` is the last one. */
  ghost predicate IsTop(v: nat, c: nat) {
    Shift(v, c) < 128 && (c > 0 ==> Shift(v, c) > 0)
  }

  /** The labels the ladder falls through, from group `top` down. */
  method FallThrough(v: nat, top: nat) returns (out: Bytes)
    requires IsTop(v, top)
    ensures out == Groups(v)
  {
    var c: nat, b: Byte := top, Group(v, top);
    out := [];
    while c > 0
      invariant b == Group(v, c)
      invariant c == top ==> out == []
      invariant c <= top && (c < top ==> Shift(v, c) >= 128 && out == Leading(Shift(v, c + 1)))
    {
      out := out + [b + 128];
      c := c - 1;
      b := Group(v, c);
    }
    out := out + [b];
  }

  lemma ShiftStep(v: nat, c: nat)
    ensures Shift(v, c + 1) == Shift(v, c) / 128
  {
  }

  /** The first of three groups that is not zero, or the third; `unit` groups lie below them. */
  function FirstOfThree(v: nat, unit: nat): nat {
    if Group(v, unit + 2) != 0 then unit + 2 else if Group(v, unit + 1) != 0 then unit + 1 else unit
  }

  /** Three groups with nothing above them have the first group that is not zero. */
  lemma FirstIsTop(v: nat, unit: nat)
    requires unit > 0 && 0 < Shift(v, unit) < 0x200000
    ensures IsTop(v, FirstOfThree(v, unit))
  {
    hide Shift;
    ShiftStep(v, unit);
    ShiftStep(v, unit + 1);
  }

  /** `Varint64::Encode`: three tests against masks of several groups, then group by group. */
  method Encode64(v: nat) returns (out: Bytes)
    requires v < TWO64
    ensures out == Groups(v)
  {
    hide Shift, Groups, Group, FirstOfThree;
    Shifts(v);
    var top := 0;
    if v >= 0x2000000000000 {
      top := FirstOfThree(v, 7);
      FirstIsTop(v, 7);
    } else if v / 0x10000000 % 0x200000 != 0 {
      top := FirstOfThree(v, 4);
      FirstIsTop(v, 4);
    } else if v / 0x80 % 0x200000 != 0 {
      top := FirstOfThree(v, 1);
      FirstIsTop(v, 1);
    }
    out := FallThrough(v, top);
  }

  /** `Varint32::Encode`: group by group from the four highest bits on. */
  method Encode32(v: nat) returns (out: Bytes)
    requires v < 0x1_0000_0000
    ensures out == Groups(v)
  {
    Shifts(v);
    var top := if Group(v, 4) != 0 then 4 else if Group(v, 3) != 0 then 3
               else if Group(v, 2) != 0 then 2 else if Group(v, 1) != 0 then 1 else 0;
    out := FallThrough(v, top);
  }

  /** Shifting by each number of groups, as one division. */
  lemma Shifts(v: nat)
    ensures Shift(v, 0) == v && Shift(v, 1) == v / 0x80 && Shift(v, 2) == v / 0x4000
    ensures Shift(v, 3) == v / 0x200000 && Shift(v, 4) == v / 0x10000000 && Shift(v, 5) == v / 0x800000000
    ensures Shift(v, 6) == v / 0x40000000000 && Shift(v, 7) == v / 0x2000000000000
    ensures Shift(v, 8) == v / 0x100000000000000 && Shift(v, 9) == v / 0x8000000000000000
  {
  }

  // ----- the length of an encoded number

  /** The number of bits of a number without leading zeros. */
  function BitLength(x: nat): nat {
    if x == 0 then 0 else 1 + BitLength(x / 2)
  }

  lemma BitLengthHalf(x: nat)
    ensures BitLength(x) == if x == 0 then 0 else 1 + BitLength(x / 2)
  {
  }

  lemma BitLengthUp(x: nat)
    requires x > 0
    ensures BitLength(16 * x) == 4 + BitLength(x)
  {
    hide BitLength;
    BitLengthHalf(16 * x);
    BitLengthHalf(8 * x);
    BitLengthHalf(4 * x);
    BitLengthHalf(2 * x);
    assert 16 * x / 2 == 8 * x && 8 * x / 2 == 4 * x && 4 * x / 2 == 2 * x && 2 * x / 2 == x;
  }

  lemma BitLengthDown(x: nat)
    requires x >= 128
    ensures BitLength(x) == 7 + BitLength(x / 128)
  {
    hide BitLength;
    BitLengthHalf(x);
    BitLengthHalf(x / 2);
    BitLengthHalf(x / 4);
    BitLengthHalf(x / 8);
    BitLengthHalf(x / 16);
    BitLengthHalf(x / 32);
    BitLengthHalf(x / 64);
    assert x / 2 / 2 == x / 4 && x / 4 / 2 == x / 8 && x / 8 / 2 == x / 16;
    assert x / 16 / 2 == x / 32 && x / 32 / 2 == x / 64 && x / 64 / 2 == x / 128;
  }

  lemma {:induction false} LeadingLength(v: nat)
    requires v > 0
    ensures |Leading(v)| == (BitLength(v) + 6) / 7
  {
    if v >= 128 {
      BitLengthDown(v);
      LeadingLength(v / 128);
    } else {
      BitLengthBounds(v, 7);
    }
  }

  lemma {:induction false} BitLengthBounds(x: nat, n: nat)
    requires x < Pow2(n)
    ensures BitLength(x) <= n && (x > 0 ==> BitLength(x) >= 1)
  {
    if x > 0 {
      BitLengthBounds(x / 2, n - 1);
    }
  }

  const ZERO_BITS: seq<nat> := [4, 3, 2, 2, 1, 1, 1, 1, 0, 0, 0, 0, 0, 0, 0, 0]

  lemma TableIs(n: nat)
    requires n < 16
    ensures ZERO_BITS[n] == 4 - BitLength(n)
  {
    hide BitLength;
    BitLengthHalf(n);
    BitLengthHalf(n / 2);
    BitLengthHalf(n / 4);
    BitLengthHalf(n / 8);
    BitLengthHalf(n / 16);
    assert n / 2 / 2 == n / 4 && n / 4 / 2 == n / 8 && n / 8 / 2 == n / 16 == 0;
  }

  /** The length of a word is that of its highest four bits, and 28 more. */
  lemma HighestBits(y: nat)
    requires 0x10000000 <= y
    ensures BitLength(y) == 28 + BitLength(y / 0x10000000)
  {
    hide BitLength;
    BitLengthDown(y);
    BitLengthDown(y / 0x80);
    BitLengthDown(y / 0x4000);
    BitLengthDown(y / 0x200000);
    assert y / 0x80 / 0x80 == y / 0x4000 && y / 0x4000 / 0x80 == y / 0x200000;
    assert y / 0x200000 / 0x80 == y / 0x10000000;
  }

  lemma BitLengthFar(x: nat)
    requires x > 0
    ensures BitLength(0x100 * x) == 8 + BitLength(x) && BitLength(0x10000 * x) == 16 + BitLength(x)
  {
    hide BitLength;
    BitLengthUp(x);
    BitLengthUp(16 * x);
    BitLengthUp(0x100 * x);
    BitLengthUp(0x1000 * x);
  }

  /** `Bits::CountLeadingZeros32`: halve the width three times, then look up the highest four bits. */
  method CountLeadingZeros32(x: nat) returns (zeros: nat)
    requires x < 0x1_0000_0000
    ensures zeros == 32 - BitLength(x)
  {
    hide BitLength;
    BitLengthHalf(0);
    var base, y: nat := 0, x;
    if y < 0x10000 {
      if y > 0 { BitLengthFar(y); }
      base, y := 16, y * 0x10000;
    }
    if y < 0x1000000 {
      if y > 0 { BitLengthFar(y); }
      base, y := base + 8, y * 0x100;
    }
    if y < 0x10000000 {
      if y > 0 { BitLengthUp(y); }
      base, y := base + 4, y * 0x10;
    }
    if y > 0 { HighestBits(y); }
    TableIs(y / 0x10000000);
    zeros := base + ZERO_BITS[y / 0x10000000];
  }

  /** `Bits::CountLeadingZeros64`: the high word decides unless it is zero. */
  method CountLeadingZeros64(x: nat) returns (zeros: nat)
    requires x < TWO64
    ensures zeros == 64 - BitLength(x)
  {
    hide BitLength;
    if x / 0x1_0000_0000 == 0 {
      var low := CountLeadingZeros32(x);
      return 32 + low;
    } else {
      HighWord(x);
      zeros := CountLeadingZeros32(x / 0x1_0000_0000);
    }
  }

  lemma HighWord(x: nat)
    requires x >= 0x1_0000_0000
    ensures BitLength(x) == 32 + BitLength(x / 0x1_0000_0000)
  {
    hide BitLength;
    var y := x / 0x10000000;
    HighestBits(x);
    BitLengthHalf(y);
    BitLengthHalf(y / 2);
    BitLengthHalf(y / 4);
    BitLengthHalf(y / 8);
    assert y / 2 / 2 == y / 4 && y / 4 / 2 == y / 8 && y / 8 / 2 == y / 16 == x / 0x1_0000_0000;
  }

  /** `Varint64::Sizeof` is the length of the encoding. */
  method Sizeof64(v: nat) returns (size: nat)
    requires v < TWO64
    ensures size == |Groups(v)|
  {
    if v == 0 {
      return 1;
    }
    var zeros := CountLeadingZeros64(v);
    GroupsLength(v);
    size := (64 - zeros + 6) / 7;
  }

  /** `Varint32::Sizeof` likewise. */
  method Sizeof32(v: nat) returns (size: nat)
    requires v < 0x1_0000_0000
    ensures size == |Groups(v)|
  {
    if v == 0 {
      return 1;
    }
    var zeros := CountLeadingZeros32(v);
    GroupsLength(v);
    size := (32 - zeros + 6) / 7;
  }

  lemma GroupsLength(v: nat)
    requires v > 0
    ensures |Groups(v)| == (BitLength(v) + 6) / 7
  {
    LeadingLength(v);
  }
}
