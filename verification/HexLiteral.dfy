/** Hexadecimal literals: parsing into words, and printing by repeated short division. */
module HexLiteral {

  import opened BigNumber

  const DIGITS: string := "0123456789abcdef"

  predicate IsHex(c: char) {
    '0' <= c <= '9' || 'a' <= c <= 'f' || 'A' <= c <= 'F'
  }

  ghost predicate AllHex(s: string) {
    forall i :: 0 <= i < |s| ==> IsHex(s[i])
  }

  /** `Big::Char2Digital`. */
  function Char2Digital(c: char): (d: Word)
    requires IsHex(c)
    ensures d < 16
  {
    if '0' <= c <= '9' then c as int - '0' as int
    else if 'a' <= c <= 'f' then 10 + (c as int - 'a' as int)
    else 10 + (c as int - 'A' as int)
  }

  // ----- what literals mean

  /** The value of a digit by its character code, in either case; 16 for any other character. */
  ghost function CodeValue(c: char): nat {
    var code := c as int;
    if 48 <= code <= 57 then code - 48
    else if 97 <= code <= 102 then code - 87
    else if 65 <= code <= 70 then code - 55
    else 16
  }

  /** The value of a text in a radix. */
  ghost function TextValue(s: string, radix: nat): nat {
    if s == [] then 0 else TextValue(s[..|s| - 1], radix) * radix + CodeValue(s[|s| - 1])
  }

  lemma TextValueOfAppended(s: string, c: char, radix: nat)
    ensures TextValue([], radix) == 0 && TextValue(s + [c], radix) == TextValue(s, radix) * radix + CodeValue(c)
  {
    assert (s + [c])[..|s|] == s;
  }

  /** `Char2Digital` gives the value of every digit, and the table of digits the lower-case
      character of every value. */
  lemma DigitsMean(c: char, d: nat)
    ensures IsHex(c) <==> CodeValue(c) < 16
    ensures IsHex(c) ==> Char2Digital(c) == CodeValue(c)
    ensures d < 16 ==> CodeValue(DIGITS[d]) == d && DIGITS[d] as int == if d < 10 then 48 + d else 87 + d
  {
  }

  function Power16(n: nat): (p: nat)
    ensures p >= 1
  {
    if n == 0 then 1 else 16 * Power16(n - 1)
  }

  ghost function HexValue(s: string): nat
    requires AllHex(s)
  {
    TextValue(s, 16)
  }

  lemma HexValueOfAppended(s: string, c: char)
    requires AllHex(s) && IsHex(c)
    ensures HexValue(s + [c]) == HexValue(s) * 16 + Char2Digital(c)
  {
    TextValueOfAppended(s, c, 16);
    DigitsMean(c, 0);
  }

  lemma Shifted(d: nat, p: nat, v: nat, last: nat)
    ensures (d * p + v) * 16 + last == d * (16 * p) + (v * 16 + last)
  {
  }

  lemma EmptyHex()
    ensures HexValue("") == 0 && Power16(0) == 1
  {
  }

  lemma Power16Step(n: nat)
    ensures Power16(n + 1) == 16 * Power16(n)
  {
  }

  lemma {:induction false} HexValueOfPrefixed(c: char, s: string)
    requires IsHex(c) && AllHex(s)
    ensures HexValue([c] + s) == Char2Digital(c) * Power16(|s|) + HexValue(s)
  {
    hide Char2Digital, IsHex, HexValue, Power16;
    EmptyHex();
    if s == [] {
      HexValueOfAppended([], c);
      assert [c] + s == [c] && [] + [c] == [c];
    } else {
      var n := |s| - 1;
      assert [c] + s == [c] + s[..n] + [s[n]] && s == s[..n] + [s[n]];
      HexValueOfPrefixed(c, s[..n]);
      HexValueOfAppended([c] + s[..n], s[n]);
      HexValueOfAppended(s[..n], s[n]);
      Power16Step(n);
      Shifted(Char2Digital(c), Power16(n), HexValue(s[..n]), Char2Digital(s[n]));
    }
  }

  // ----- parsing

  lemma {:induction false} Power16InWords(k: nat)
    ensures Power16(k) == Power16(k % 8) * Power(k / 8)
  {
    hide Power16;
    if k >= 8 {
      Power16InWords(k - 8);
      Power16Of8(k);
      Associate(Power16(k % 8), Power(k / 8 - 1), BASE);
    } else {
      assert Power(k / 8) == 1;
    }
  }

  lemma Power16Of8(k: nat)
    requires k >= 8
    ensures Power16(k) == BASE * Power16(k - 8)
  {
    assert Power16(k) == 16 * Power16(k - 1) == 0x100 * Power16(k - 2) == 0x1000 * Power16(k - 3);
    assert Power16(k - 3) == 16 * Power16(k - 4) == 0x100 * Power16(k - 5) == 0x1000 * Power16(k - 6);
    assert Power16(k - 6) == 16 * Power16(k - 7) == 0x100 * Power16(k - 8);
  }

  /** A digit put above the digits of a word fits, and does not touch them. */
  lemma DigitFits(k: nat, w: nat, d: nat)
    requires k < 8 && w < Power16(k) && d < 16
    ensures w + d * Power16(k) < Power16(k + 1) <= BASE
  {
    MulMono(Power16(k), d, 15);
    assert Power16(0) == 1 && Power16(1) == 0x10 && Power16(2) == 0x100 && Power16(3) == 0x1000;
    assert Power16(4) == 0x10000 && Power16(5) == 0x100000 && Power16(6) == 0x1000000;
    assert Power16(7) == 0x10000000 && Power16(8) == BASE;
  }

  lemma Distribute(w: nat, d: nat, h: nat, p: nat)
    ensures (w + d * h) * p == w * p + d * (h * p)
  {
  }

  /** Adding a digit to the highest word counts for as much as the digit does. */
  lemma DigitCounts(k: nat, w: Word, d: nat, low: seq<Word>)
    requires |low| == k / 8 && d < 16 && w + d * Power16(k % 8) < BASE
    ensures Value([w + d * Power16(k % 8)] + low) == d * Power16(k) + Value([w] + low)
  {
    hide Value, Power, Power16;
    var p, h := Power(k / 8), Power16(k % 8);
    ValueOfPrefixed(w + d * h, low);
    ValueOfPrefixed(w, low);
    Power16InWords(k);
    Distribute(w, d, h, p);
  }

  /** The last `k` digits fill the last words up to a value; in the highest of these words, only
      the places of its digits. */
  ghost predicate Filled(words: seq<Word>, k: nat, v: nat) {
    var used := (k + 7) / 8;
    && used <= |words| && Value(words[|words| - used..]) == v
    && (k % 8 > 0 ==> words[|words| - used] < Power16(k % 8))
  }

  /** What is in the word of the k-th digit below its place. */
  function Below(words: seq<Word>, k: nat): Word
    requires k / 8 < |words|
  {
    if k % 8 == 0 then 0 else words[|words| - k / 8 - 1]
  }

  lemma FilledBelow(words: seq<Word>, k: nat, v: nat)
    requires k / 8 < |words| && Filled(words, k, v)
    ensures Value([Below(words, k)] + words[|words| - k / 8..]) == v && Below(words, k) < Power16(k % 8)
  {
    hide Value, Power16;
    var j := |words| - k / 8 - 1;
    if k % 8 == 0 {
      NoDigits(words[j + 1..]);
    } else {
      FrontReplaced(words, j, words[j]);
      assert words[j := words[j]] == words;
    }
  }

  lemma FilledOneMore(words: seq<Word>, k: nat, w: Word, v: nat)
    requires k / 8 < |words| && Value([w] + words[|words| - k / 8..]) == v && w < Power16(k % 8 + 1)
    ensures Filled(words[|words| - k / 8 - 1 := w], k + 1, v)
  {
    hide Value, Power16;
    NextPlace(k);
    FrontReplaced(words, |words| - k / 8 - 1, w);
  }

  lemma NextPlace(k: nat)
    ensures (k + 1 + 7) / 8 == k / 8 + 1 && ((k + 1) % 8 > 0 ==> (k + 1) % 8 == k % 8 + 1)
  {
  }

  lemma FrontReplaced(words: seq<Word>, j: nat, w: Word)
    requires j < |words|
    ensures words[j := w][j..] == [w] + words[j + 1..]
  {
  }

  /** Puts the k-th digit from the end into its word, which it clears when it is the first there. */
  method PutDigit(words: array<Word>, k: nat, d: Word, ghost v: nat)
    requires k / 8 < words.Length && d < 16 && Filled(words[..], k, v)
    modifies words
    ensures Filled(words[..], k + 1, d * Power16(k) + v)
  {
    hide Value, Power16, Filled;
    ghost var before := words[..];
    var j := words.Length - k / 8 - 1;
    FilledBelow(before, k, v);
    if k % 8 == 0 {
      words[j] := 0;
    }
    assert words[j] == Below(before, k);
    DigitFits(k % 8, words[j], d);
    DigitCounts(k, words[j], d, before[j + 1..]);
    words[j] := words[j] + d * Power16(k % 8);
    FilledOneMore(before, k, words[j], d * Power16(k) + v);
    assert words[..] == before[j := words[j]];
  }

  /** `Decimal::NewHexLiteral`, behind the prefix of two characters: the words of the number. */
  method NewHexLiteral(literal: string) returns (words: array<Word>)
    requires |literal| >= 2 && AllHex(literal[2..])
    ensures fresh(words) && Value(words[..]) == HexValue(literal[2..]) == TextValue(literal[2..], 16)
  {
    hide Value, TextValue, CodeValue, Power16, Filled;
    var s := literal[2..];
    var size := (4 * |s| + 31) / 32;
    words := new Word[size];
    var i, k := |s|, 0;
    NothingFilled(words[..]);
    assert s[i..] == [];
    while i > 0
      invariant 0 <= i <= |s| && k == |s| - i && Filled(words[..], k, HexValue(s[i..]))
    {
      i := i - 1;
      PutDigit(words, k, Char2Digital(s[i]), HexValue(s[i + 1..]));
      assert s[i..] == [s[i]] + s[i + 1..];
      HexValueOfPrefixed(s[i], s[i + 1..]);
      k := k + 1;
    }
    assert s[0..] == s;
    AllFilled(words[..], k, HexValue(s));
  }

  lemma NothingFilled(words: seq<Word>)
    ensures Filled(words, 0, HexValue(""))
  {
  }

  lemma AllFilled(words: seq<Word>, k: nat, v: nat)
    requires Filled(words, k, v) && |words| == (k + 7) / 8
    ensures Value(words) == v
  {
    assert words[0..] == words;
  }

  lemma NoDigits(low: seq<Word>)
    ensures Value([0] + low) == Value(low) && Power16(0) == 1
  {
    ValueOfPrefixed(0, low);
  }

  // ----- printing

  /** The digits of a number in a radix, without leading zeros. */
  function Digits(v: nat, radix: nat): string
    requires 2 <= radix <= 16
  {
    if v < radix then [DIGITS[v]] else Digits(v / radix, radix) + [DIGITS[v % radix]]
  }

  /** A text that is a number in a radix as it is printed: digits of the radix, in lower case, and
      no leading zero unless it is the only digit. */
  ghost predicate IsNumeral(s: string, radix: nat) {
    && s != [] && (forall i :: 0 <= i < |s| ==> CodeValue(s[i]) < radix && !('A' <= s[i] <= 'F'))
    && (|s| > 1 ==> s[0] != '0')
  }

  /** The digits of a number are a numeral with that value. */
  lemma {:induction false} DigitsAreNumeral(v: nat, radix: nat)
    requires 2 <= radix <= 16
    ensures IsNumeral(Digits(v, radix), radix) && TextValue(Digits(v, radix), radix) == v
    ensures v > 0 ==> Digits(v, radix)[0] != '0'
  {
    hide CodeValue, TextValue;
    if v < radix {
      DigitsMean('0', v);
      TextValueOfAppended("", DIGITS[v], radix);
      assert "" + [DIGITS[v]] == [DIGITS[v]];
    } else {
      var q, d := v / radix, v % radix;
      QuotientPositive(v, radix);
      DigitsAreNumeral(q, radix);
      DigitsMean('0', d);
      TextValueOfAppended(Digits(q, radix), DIGITS[d], radix);
    }
  }

  lemma QuotientPositive(v: nat, radix: nat)
    requires 2 <= radix <= v
    ensures 0 < v / radix < v && v == v / radix * radix + v % radix && v % radix < radix
  {
  }

  lemma {:induction false} ZeroValue(words: seq<Word>)
    ensures Value(words) == 0 <==> forall i :: 0 <= i < |words| ==> words[i] == 0
  {
    if words != [] {
      ZeroValue(words[..|words| - 1]);
    }
  }

  /** `Decimal::zero`. */
  method IsZero(words: seq<Word>) returns (zero: bool)
    ensures zero <==> Value(words) == 0
  {
    ZeroValue(words);
    for i := 0 to |words|
      invariant forall j :: 0 <= j < i ==> words[j] == 0
    {
      if words[i] != 0 {
        return false;
      }
    }
    return true;
  }

  /** `Decimal::ToString` for a number that is not negative and has no exponent. */
  method ToString(words: array<Word>, radix: nat) returns (text: string)
    requires 2 <= radix <= 16
    ensures text == Digits(Value(words[..]), radix)
    ensures IsNumeral(text, radix) && TextValue(text, radix) == Value(words[..])
  {
    hide Value, Digits, IsDivision, IsNumeral, TextValue;
    DigitsAreNumeral(Value(words[..]), radix);
    var zero := IsZero(words[..]);
    if zero {
      ZeroDigits(radix);
      return "0";
    }
    var n := words.Length;
    var q := new Word[n];
    var p := new Word[n](i requires 0 <= i < n reads words => words[i]);
    assert p[..] == words[..];
    text := "";
    ghost var v := Value(words[..]);
    assert Digits(v, radix) + "" == Digits(v, radix);
    while !zero
      invariant zero <==> Value(p[..]) == 0
      invariant Digits(v, radix) == if zero then text else Digits(Value(p[..]), radix) + text
      decreases Value(p[..])
    {
      NotEmpty(p[..]);
      var m := DivWord(p[..], radix, q);
      ghost var next := q[..];
      OneDigit(Value(p[..]), radix, Value(next), m, text);
      text := [DIGITS[m]] + text;
      forall i | 0 <= i < n {
        p[i] := q[i];
      }
      assert p[..] == next;
      zero := IsZero(p[..]);
    }
  }

  lemma ZeroDigits(radix: nat)
    requires 2 <= radix <= 16
    ensures Digits(0, radix) == "0"
  {
  }

  lemma NotEmpty(words: seq<Word>)
    requires Value(words) > 0
    ensures |words| > 0
  {
  }

  /** One round of printing: the last digit goes in front of the text. */
  lemma OneDigit(v: nat, radix: nat, q: nat, m: nat, text: string)
    requires 2 <= radix <= 16 && IsDivision(v, radix, q, m) && v > 0
    ensures m < 16 && q < v
    ensures Digits(v, radix) + text
         == if q == 0 then [DIGITS[m]] + text else Digits(q, radix) + ([DIGITS[m]] + text)
  {
    hide Digits, IsDivision;
    DivisionParts(v, radix, q, m);
    DigitsStep(v, radix);
    if q > 0 {
      assert Digits(q, radix) + [DIGITS[m]] + text == Digits(q, radix) + ([DIGITS[m]] + text);
    }
  }

  lemma DigitsStep(v: nat, radix: nat)
    requires 2 <= radix <= 16
    ensures Digits(v, radix) == if v < radix then [DIGITS[v]] else Digits(v / radix, radix) + [DIGITS[v % radix]]
  {
  }

  lemma DivisionParts(v: nat, radix: nat, q: nat, m: nat)
    requires 2 <= radix <= 16 && IsDivision(v, radix, q, m) && v > 0
    ensures m < 16 && q < v && v / radix == q && v % radix == m && (q > 0 <==> v >= radix) && (q == 0 ==> v == m)
  {
    QuotientIs(v, radix, q, m);
    if q > 0 {
      MulMono(q, 2, radix);
    }
  }

  // ----- printing a literal

  function Lower(c: char): char {
    if 'A' <= c <= 'F' then (c as int - 'A' as int + 'a' as int) as char else c
  }

  function LowerAll(s: string): (r: string)
    ensures |r| == |s|
  {
    seq(|s|, i requires 0 <= i < |s| => Lower(s[i]))
  }

  function WithoutLeadingZeros(s: string): string {
    if s != [] && s[0] == '0' then WithoutLeadingZeros(s[1..]) else s
  }

  /** The text a literal is expected to print as. */
  function Canonical(s: string): string {
    var digits := LowerAll(WithoutLeadingZeros(s));
    if digits == [] then "0" else digits
  }

  lemma {:induction false} LeadingZerosCountNothing(s: string)
    requires AllHex(s)
    ensures AllHex(WithoutLeadingZeros(s)) && HexValue(WithoutLeadingZeros(s)) == HexValue(s)
    ensures WithoutLeadingZeros(s) != [] ==> WithoutLeadingZeros(s)[0] != '0'
  {
    if s != [] && s[0] == '0' {
      LeadingZerosCountNothing(s[1..]);
      assert s == [s[0]] + s[1..];
      HexValueOfPrefixed(s[0], s[1..]);
    }
  }

  lemma DigitOf(c: char)
    requires IsHex(c)
    ensures DIGITS[Char2Digital(c)] == Lower(c) && (Char2Digital(c) == 0 <==> c == '0')
  {
  }

  lemma NextDigit(v: nat, d: nat)
    requires 0 < v && d < 16
    ensures Digits(v * 16 + d, 16) == Digits(v, 16) + [DIGITS[d]]
  {
    hide Digits;
    assert (v * 16 + d) / 16 == v && (v * 16 + d) % 16 == d;
    DigitsStep(v * 16 + d, 16);
  }

  lemma {:induction false} DigitsOfHex(s: string)
    requires AllHex(s) && s != [] && s[0] != '0'
    ensures HexValue(s) > 0 && Digits(HexValue(s), 16) == LowerAll(s)
  {
    hide Lower, Char2Digital, IsHex, HexValue, Digits;
    EmptyHex();
    var n := |s| - 1;
    var c, d := s[n], Char2Digital(s[n]);
    assert s == s[..n] + [c];
    HexValueOfAppended(s[..n], c);
    DigitOf(c);
    if n == 0 {
      assert s[..0] == "";
      DigitsStep(d, 16);
      assert LowerAll(s) == [Lower(c)];
    } else {
      DigitsOfHex(s[..n]);
      NextDigit(HexValue(s[..n]), d);
      assert LowerAll(s) == LowerAll(s[..n]) + [Lower(c)];
    }
  }

  lemma PrintsCanonically(s: string)
    requires AllHex(s)
    ensures Digits(HexValue(s), 16) == Canonical(s)
  {
    var t := WithoutLeadingZeros(s);
    LeadingZerosCountNothing(s);
    if t != [] {
      DigitsOfHex(t);
    }
  }

  /** A literal of any length prints as its lower-case digits without leading zeros. */
  method PrintHexLiteral(literal: string) returns (text: string)
    requires |literal| >= 2 && AllHex(literal[2..])
    ensures text == Canonical(literal[2..])
  {
    var words := NewHexLiteral(literal);
    text := ToString(words, 16);
    PrintsCanonically(literal[2..]);
  }
}
