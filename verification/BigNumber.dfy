/** Multi-word unsigned arithmetic: words of 32 bits, the most significant first. */
module BigNumber {

  import Varint

  const BASE: nat := 0x1_0000_0000

  type Word = w: int | 0 <= w < 0x1_0000_0000

  function Power(n: nat): (p: nat)
    ensures p >= 1
  {
    if n == 0 then 1 else BASE * Power(n - 1)
  }

  function Value(words: seq<Word>): nat {
    if words == [] then 0 else Value(words[..|words| - 1]) * BASE + words[|words| - 1]
  }

  lemma ValueOfAppended(words: seq<Word>, w: Word)
    ensures Value(words + [w]) == Value(words) * BASE + w
  {
    assert (words + [w])[..|words|] == words;
  }

  lemma {:induction false} ValueOfBoth(a: seq<Word>, b: seq<Word>)
    ensures Value(a + b) == Value(a) * Power(|b|) + Value(b)
  {
    if b == [] {
      assert a + b == a;
    } else {
      var n := |b| - 1;
      assert (a + b)[..|a| + n] == a + b[..n];
      ValueOfBoth(a, b[..n]);
      assert Value(a) * Power(n) * BASE == Value(a) * Power(|b|) by {
        Associate(Value(a), Power(n), BASE);
      }
    }
  }

  lemma Associate(a: nat, b: nat, c: nat)
    ensures a * b * c == a * (c * b)
  {
  }

  lemma ValueOfPrefixed(w: Word, words: seq<Word>)
    ensures Value([w] + words) == w * Power(|words|) + Value(words)
  {
    ValueOfBoth([w], words);
    assert Value([w]) == w;
  }

  lemma ValueFrom(x: seq<Word>, i: nat)
    requires i < |x|
    ensures Value(x[i..]) == x[i] * Power(|x| - i - 1) + Value(x[i + 1..])
  {
    hide Value, Power;
    assert x[i..] == [x[i]] + x[i + 1..];
    ValueOfPrefixed(x[i], x[i + 1..]);
  }

  // ----- schoolbook multiplication

  lemma MulMono(a: nat, b: nat, c: nat)
    requires b <= c
    ensures a * b <= a * c
  {
  }

  /** The sum of a product of words, a word and a carry fits in two words. */
  lemma ProductFits(a: Word, b: Word, c: Word, carry: Word)
    ensures 0 <= a * b + c + carry < BASE * BASE
  {
    MulMono(a, b, 0xFFFF_FFFF);
    assert a * 0xFFFF_FFFF <= 0xFFFF_FFFF * 0xFFFF_FFFF;
    MulMono(a, 0, b);
  }

  /** One step of a row: the low word goes out, the high word is carried. */
  lemma RowStep(y: nat, ys: nat, w: nat, before: nat, olds: nat, carry: nat, done: nat, p: nat, word: nat, next: nat)
    requires carry * p + done == ys * w + olds
    requires y * w + before + carry == next * BASE + word
    ensures next * (BASE * p) + (word * p + done) == (y * p + ys) * w + (before * p + olds)
  {
    assert (next * BASE + word) * p == next * (BASE * p) + word * p;
    assert (y * w + before + carry) * p == y * w * p + before * p + carry * p;
    assert y * w * p == y * p * w;
  }

  /** The words `news` and the carry are what a row has made of the words `olds` so far. */
  ghost predicate IsRow(y: seq<Word>, w: Word, olds: seq<Word>, news: seq<Word>, carry: Word) {
    |news| == |olds| == |y| && carry * Power(|y|) + Value(news) == Value(y) * w + Value(olds)
  }

  lemma RowGoesOn(y: seq<Word>, w: Word, olds: seq<Word>, news: seq<Word>, carry: Word, a: Word, c: Word)
    requires IsRow(y, w, olds, news, carry) && 0 <= a * w + c + carry < BASE * BASE
    ensures var product := a * w + c + carry;
      product / BASE < BASE && IsRow([a] + y, w, [c] + olds, [product % BASE] + news, product / BASE)
  {
    var product := a * w + c + carry;
    var word, next := product % BASE, product / BASE;
    ValueOfPrefixed(a, y);
    ValueOfPrefixed(c, olds);
    ValueOfPrefixed(word, news);
    RowStep(a, Value(y), w, c, Value(olds), carry, Value(news), Power(|y|), word, next);
  }

  /** Adds a multiple of `y` to the words behind position `i` and puts the carry there. */
  method AddRow(y: seq<Word>, w: Word, rv: array<Word>, i: nat) returns (carry: Word)
    requires i + |y| < rv.Length
    modifies rv
    ensures rv[..i] == old(rv[..i]) && rv[i + 1 + |y|..] == old(rv[i + 1 + |y|..])
    ensures Value(rv[i..i + 1 + |y|]) == Value(y) * w + Value(old(rv[i + 1..i + 1 + |y|]))
    ensures carry == rv[i]
  {
    hide Value, Power, IsRow;
    var j, end := |y|, i + 1 + |y|;
    carry := 0;
    EmptyRow(w);
    ghost var before := rv[..];
    assert y[j..] == [] && before[end..end] == [] && rv[end..end] == [];
    while j > 0
      invariant 0 <= j <= |y|
      invariant rv[..i + 1 + j] == before[..i + 1 + j] && rv[end..] == before[end..]
      invariant IsRow(y[j..], w, before[i + 1 + j..end], rv[i + 1 + j..end], carry)
    {
      j := j - 1;
      var k := i + 1 + j;
      ghost var news := rv[k + 1..end];
      assert rv[k] == rv[..k + 1][k] == before[k];
      ProductFits(y[j], w, rv[k], carry);
      RowGoesOn(y[j + 1..], w, before[k + 1..end], news, carry, y[j], rv[k]);
      assert [y[j]] + y[j + 1..] == y[j..] && [before[k]] + before[k + 1..end] == before[k..end];
      var product := y[j] * w + rv[k] + carry;
      rv[k] := product % BASE;
      carry := product / BASE;
      assert rv[k..end] == [product % BASE] + news;
    }
    ghost var news := rv[i + 1..end];
    rv[i] := carry;
    assert y[0..] == y && rv[i..end] == [carry] + news;
    RowValue(y, w, before[i + 1..end], news, carry);
  }

  lemma EmptyRow(w: Word)
    ensures IsRow([], w, [], [], 0)
  {
  }

  lemma RowValue(y: seq<Word>, w: Word, olds: seq<Word>, news: seq<Word>, carry: Word)
    requires IsRow(y, w, olds, news, carry)
    ensures Value([carry] + news) == Value(y) * w + Value(olds)
  {
    ValueOfPrefixed(carry, news);
  }

  function Zeros(n: nat): (zeros: seq<Word>)
    ensures |zeros| == n
  {
    if n == 0 then [] else [0] + Zeros(n - 1)
  }

  lemma {:induction false} ValueOfZeros(n: nat)
    ensures Value(Zeros(n)) == 0
  {
    if n > 0 {
      ValueOfZeros(n - 1);
      ValueOfPrefixed(0, Zeros(n - 1));
    }
  }

  /** The first row, into words whatever they hold. */
  method FirstRow(y: seq<Word>, w: Word, rv: array<Word>, i: nat) returns (carry: Word)
    requires i + 1 + |y| == rv.Length
    modifies rv
    ensures Value(rv[i..]) == Value(y) * w && carry == rv[i]
  {
    hide Value, Power, IsRow, Zeros;
    var j, end := |y|, i + 1 + |y|;
    carry := 0;
    EmptyRow(w);
    assert y[j..] == [] && rv[end..end] == [];
    assert Zeros(0) == [];
    while j > 0
      invariant 0 <= j <= |y|
      invariant IsRow(y[j..], w, Zeros(|y| - j), rv[i + 1 + j..end], carry)
    {
      j := j - 1;
      var k := i + 1 + j;
      ghost var news := rv[k + 1..end];
      ProductFits(y[j], w, 0, carry);
      RowGoesOn(y[j + 1..], w, Zeros(|y| - j - 1), news, carry, y[j], 0);
      MoreZeros(|y| - j);
      assert [y[j]] + y[j + 1..] == y[j..];
      var product := y[j] * w + carry;
      rv[k] := product % BASE;
      carry := product / BASE;
      assert rv[k..end] == [product % BASE] + news;
    }
    ghost var news := rv[i + 1..end];
    rv[i] := carry;
    assert y[0..] == y && rv[i..] == [carry] + news;
    RowValue(y, w, Zeros(|y|), news, carry);
    ValueOfZeros(|y|);
  }

  lemma MoreZeros(n: nat)
    requires n > 0
    ensures Zeros(n) == [0] + Zeros(n - 1)
  {
  }

  lemma RowAdds(ys: nat, w: nat, row: nat, mid: nat, p: nat, xs: nat, rest: nat, more: nat)
    requires row == ys * w + mid && mid * p + rest == xs * ys && more == w * p + xs
    ensures row * p + rest == more * ys
  {
    assert (ys * w + mid) * p == ys * w * p + mid * p;
    assert (w * p + xs) * ys == w * p * ys + xs * ys;
    assert ys * w * p == w * p * ys;
  }

  /** What a row adds to the product so far. */
  lemma ProductGrows(x: seq<Word>, i: nat, y: seq<Word>, row: seq<Word>, mid: seq<Word>, rest: seq<Word>)
    requires i < |x| && |rest| == |x| - i - 1
    requires Value(row) == Value(y) * x[i] + Value(mid) && Value(mid + rest) == Value(x[i + 1..]) * Value(y)
    ensures Value(row + rest) == Value(x[i..]) * Value(y)
  {
    hide Value, Power;
    var p, w, ys := Power(|rest|), x[i], Value(y);
    ValueOfBoth(row, rest);
    ValueOfBoth(mid, rest);
    ValueFrom(x, i);
    RowAdds(ys, w, Value(row), Value(mid), p, Value(x[i + 1..]), Value(rest), Value(x[i..]));
  }

  /** `Big::BasicMul`: the words of the exact product; the return value is the highest of them. */
  method BasicMul(x: seq<Word>, y: seq<Word>, rv: array<Word>) returns (high: Word)
    requires |x| > 0 && rv.Length == |x| + |y|
    modifies rv
    ensures Value(rv[..]) == Value(x) * Value(y)
    ensures high == rv[0]
  {
    hide Value, Power;
    var i := |x| - 1;
    high := FirstRow(y, x[i], rv, i);
    LastWord(x);
    while i > 0
      invariant 0 <= i < |x| && Value(rv[i..]) == Value(x[i..]) * Value(y) && high == rv[i]
    {
      i := i - 1;
      ghost var end := i + 1 + |y|;
      ghost var mid, rest := rv[i + 1..end], rv[end..];
      CutAt(rv[..], i + 1, end);
      high := AddRow(y, x[i], rv, i);
      CutAt(rv[..], i, end);
      ProductGrows(x, i, y, rv[i..end], mid, rest);
    }
    assert rv[0..] == rv[..] && x[0..] == x;
  }

  lemma CutAt(words: seq<Word>, i: nat, j: nat)
    requires i <= j <= |words|
    ensures words[i..] == words[i..j] + words[j..]
  {
  }

  lemma LastWord(x: seq<Word>)
    requires |x| > 0
    ensures Value(x[|x| - 1..]) == x[|x| - 1]
  {
    assert x[|x| - 1..] == [x[|x| - 1]];
  }

  // ----- division by a word

  const TWO63: nat := 0x8000_0000_0000_0000
  const TWO64: nat := 0x1_0000_0000_0000_0000

  /** `Big::DivWord` on two words: both halved, and nothing to correct an estimate that is too high. */
  function HalvedDivide(n: nat, d: nat): (Word, Word)
    requires d > 0
  {
    if d == 1 then (n % BASE, 0)
    else
      var q := n / 2 / (d / 2);
      (q % BASE, (n - q * d) % TWO64 % BASE)
  }

  /** One word of the long division. The two-word dividend is negative as a signed number from
      the 63rd power of two on. */
  function WordDivide(rem: Word, w: Word, d: Word): (Word, Word)
    requires d > 0
  {
    var n := rem * BASE + w;
    if n < TWO63 then
      var q := n / d % BASE;
      (q, (n - q * d) % TWO64 % BASE)
    else HalvedDivide(n, d)
  }

  /** The long division, word by word from the most significant one. */
  function Divide(words: seq<Word>, d: Word): (r: (seq<Word>, Word))
    requires d > 0
    ensures |r.0| == |words|
  {
    if words == [] then ([], 0)
    else
      var n := |words| - 1;
      var (qs, rem) := Divide(words[..n], d);
      var (q, r) := WordDivide(rem, words[n], d);
      (qs + [q], r)
  }

  lemma DivideAppended(words: seq<Word>, w: Word, d: Word)
    requires d > 0
    ensures var (qs, rem) := Divide(words, d);
      var (q, r) := WordDivide(rem, w, d);
      Divide(words + [w], d) == (qs + [q], r)
  {
    assert (words + [w])[..|words|] == words;
  }

  /** A quotient and a remainder that are what they should be. */
  ghost predicate IsDivision(n: nat, d: nat, q: nat, r: nat) {
    n == q * d + r && r < d
  }

  lemma QuotientIs(n: nat, d: nat, q: nat, r: nat)
    requires IsDivision(n, d, q, r)
    ensures n / d == q
  {
    var k := n / d;
    assert n == k * d + n % d;
    assert k * d - q * d == (k - q) * d;
    if k > q {
      MulMono(d, 1, k - q);
    } else if k < q {
      MulMono(d, 1, q - k);
    }
  }

  lemma HalvedDivision(n: nat, h: nat, q: nat, r: nat)
    requires IsDivision(n, 2 * h, q, r)
    ensures IsDivision(n / 2, h, q, r / 2)
  {
    var t := q * h;
    assert q * (2 * h) == 2 * t;
  }

  lemma HalvedIsExact(n: nat, h: nat, q: nat, r: nat)
    requires IsDivision(n, 2 * h, q, r)
    ensures n / 2 / h == q
  {
    hide IsDivision;
    HalvedDivision(n, h, q, r);
    QuotientIs(n / 2, h, q, r / 2);
  }

  lemma QuotientFits(rem: Word, w: Word, d: Word)
    requires rem < d
    ensures var n := rem * BASE + w; n < d * BASE && n / d < BASE && IsDivision(n, d, n / d, n - n / d * d)
  {
    var n := rem * BASE + w;
    var q := n / d;
    assert n == q * d + n % d;
    if q >= BASE {
      MulMono(d, BASE, q);
    }
  }

  /** A divisor for which no word of a division goes wrong. */
  predicate Safe(d: Word) {
    d <= 0x8000_0000 || d % 2 == 0
  }

  /** Cutting the quotient and the remainder down to words changes nothing. */
  lemma WordsSuffice(n: nat, d: Word, q: nat, r: nat)
    requires IsDivision(n, d, q, r) && q < BASE
    ensures q % BASE == q && (n - q * d) % TWO64 % BASE == r
  {
    assert n - q * d == r;
  }

  lemma WordDivideIsExact(rem: Word, w: Word, d: Word)
    requires rem < d && (Safe(d) || rem * BASE + w < TWO63)
    ensures var (q, r) := WordDivide(rem, w, d); IsDivision(rem * BASE + w, d, q, r)
  {
    hide IsDivision;
    var n := rem * BASE + w;
    QuotientFits(rem, w, d);
    var q := n / d;
    var r := n - q * d;
    WordsSuffice(n, d, q, r);
    if n >= TWO63 {
      assert d % 2 == 0;
      HalvedIsExact(n, d / 2, q, r);
    }
  }

  lemma {:induction false} DivideIsExact(words: seq<Word>, d: Word)
    requires d > 0 && Safe(d)
    ensures var (qs, r) := Divide(words, d); IsDivision(Value(words), d, Value(qs), r)
  {
    if words != [] {
      var n := |words| - 1;
      var (qs, rem) := Divide(words[..n], d);
      var (q, r) := WordDivide(rem, words[n], d);
      DivideIsExact(words[..n], d);
      WordDivideIsExact(rem, words[n], d);
      ValueOfAppended(qs, q);
      Carried(Value(words[..n]), Value(qs), d, rem, words[n], q, r);
    }
  }

  lemma Carried(v: nat, qs: nat, d: nat, rem: nat, w: nat, q: nat, r: nat)
    requires v == qs * d + rem && rem * BASE + w == q * d + r
    ensures v * BASE + w == (qs * BASE + q) * d + r
  {
    assert qs * d * BASE == qs * BASE * d;
  }

  /** The two-word step that an odd divisor above half the base gets wrong. */
  lemma OddStepFails(d: Word)
    requires !Safe(d)
    ensures WordDivide(d - 1, BASE - 1, d).0 == 1
  {
    var h := d / 2;
    assert d == 2 * h + 1 && 0x4000_0000 <= h <= 0x7FFF_FFFF;
    var n := (d - 1) * BASE + (BASE - 1);
    assert n / 2 == (BASE + 1) * h + (0x7FFF_FFFF - h);
    QuotientIs(n / 2, h, BASE + 1, 0x7FFF_FFFF - h);
  }

  /** An odd divisor above half the base goes wrong on this dividend. */
  lemma OddDivisorFails(d: Word)
    requires !Safe(d)
    ensures var (qs, r) := Divide([d - 1, BASE - 1], d);
      qs == [0, 1] && !IsDivision(Value([d - 1, BASE - 1]), d, Value(qs), r)
  {
    hide WordDivide;
    var words: seq<Word> := [d - 1, BASE - 1];
    assert [] + [d - 1] == [d - 1] && [d - 1] + [BASE - 1] == words;
    DivideAppended([], d - 1, d);
    DivideAppended([d - 1], BASE - 1, d);
    OneWordStep(d - 1, d, 0, d - 1);
    OddStepFails(d);
    ValueOfAppended([], d - 1);
    ValueOfAppended([d - 1], BASE - 1);
    assert [0] + [1] == [0, 1] && [] + [0] == [0];
    ValueOfAppended([], 0);
    ValueOfAppended([0], 1);
  }

  /** Division by a word is right on all numbers if and only if the divisor is even or at most
      half the base. */
  lemma DivideIsExactIff(d: Word)
    requires d > 0
    ensures Safe(d) <==>
      forall words: seq<Word> :: var (qs, r) := Divide(words, d); IsDivision(Value(words), d, Value(qs), r)
  {
    if Safe(d) {
      forall words: seq<Word>
        ensures var (qs, r) := Divide(words, d); IsDivision(Value(words), d, Value(qs), r)
      {
        DivideIsExact(words, d);
      }
    } else {
      OddDivisorFails(d);
    }
  }

  lemma OneWordStep(w: Word, d: Word, q: nat, r: nat)
    requires d > 0 && IsDivision(w, d, q, r) && q < BASE
    ensures WordDivide(0, w, d) == (q, r)
  {
    QuotientIs(w, d, q, r);
    WordsSuffice(w, d, q, r);
  }

  lemma OneWord(w: Word, d: Word, q: nat, r: nat)
    requires d > 0 && IsDivision(w, d, q, r) && q < BASE
    ensures Divide([w], d) == ([q], r)
  {
    hide IsDivision, WordDivide;
    OneWordStep(w, d, q, r);
    DivideAppended([], w, d);
    assert [] + [w] == [w] && [] + [q] == [q];
  }

  /** The division of the highest word. */
  method DivHighest(w: Word, d: Word) returns (q: Word, r: Word)
    requires d > 0
    ensures Divide([w], d) == ([q], r)
  {
    hide Divide;
    q, r := 0, w;
    if w >= d {
      QuotientFits(0, w, d);
      q, r := w / d, w - w / d * d;
    }
    OneWord(w, d, q, r);
  }

  /** A divisor with a leading zero bit is below half the base. */
  lemma ShiftIsSafe(d: Word)
    requires Varint.BitLength(d) < 32
    ensures d < 0x8000_0000
  {
    if d >= 0x8000_0000 {
      Varint.HighestBits(d);
      Varint.TableIs(d / 0x1000_0000);
    }
  }

  /** The division of the other words, from the remainder of the highest on. */
  method DivOthers(lhs: seq<Word>, d: Word, rv: array<Word>, high: Word) returns (r: Word)
    requires |lhs| > 0 && d > 0 && rv.Length == |lhs| && (rv[..1], high) == Divide(lhs[..1], d)
    modifies rv
    ensures (rv[..], r) == Divide(lhs, d)
  {
    hide Divide, WordDivide;
    r := high;
    for i := 1 to |lhs|
      invariant (rv[..i], r) == Divide(lhs[..i], d)
    {
      ghost var before := rv[..i];
      DivideAppended(lhs[..i], lhs[i], d);
      var (q, rest) := WordDivide(r, lhs[i], d);
      rv[i], r := q, rest;
      assert lhs[..i + 1] == lhs[..i] + [lhs[i]] && rv[..i + 1] == before + [q];
    }
    assert lhs[..|lhs|] == lhs && rv[..|lhs|] == rv[..];
  }

  /** `Big::DivWord`: the words of the quotient, and the remainder. */
  method DivWord(lhs: seq<Word>, rhs: Word, rv: array<Word>) returns (r: Word)
    requires |lhs| > 0 && rhs > 0 && rv.Length == |lhs|
    modifies rv
    ensures (rv[..], r) == Divide(lhs, rhs)
    ensures Safe(rhs) ==> IsDivision(Value(lhs), rhs, Value(rv[..]), r)
  {
    hide Divide, WordDivide, IsDivision, Value;
    if Safe(rhs) {
      DivideIsExact(lhs, rhs);
    }
    var q;
    q, r := DivHighest(lhs[0], rhs);
    if |lhs| == 1 {
      for i := 0 to rv.Length {
        rv[i] := 0;
      }
      rv[0] := q;
      assert lhs == [lhs[0]] && rv[..] == [q];
      return;
    }
    var shift := Varint.CountLeadingZeros32(rhs);
    rv[0] := q;
    assert lhs[..1] == [lhs[0]] && rv[..1] == [q];
    r := DivOthers(lhs, rhs, rv, r);
    if shift > 0 {
      ShiftIsSafe(rhs);
      SmallRemainder(Value(lhs), rhs, Value(rv[..]), r);
      r := r % rhs;
    }
  }

  lemma SmallRemainder(n: nat, d: nat, q: nat, r: nat)
    requires IsDivision(n, d, q, r)
    ensures r % d == r
  {
  }
}
