/** The hash function of message catalogues, for every width of `unsigned long`. */
module HashString {

  import opened Arith
  import opened CStrings

  const TWO28: nat := 0x1000_0000
  const TWO32: nat := 0x1_0000_0000

  /** `(unsigned char) c`. */
  function UnsignedChar(c: char): nat { c as int % 256 }

  /** Bitwise exclusive or. */
  function Xor(a: nat, b: nat): nat {
    if a == 0 && b == 0 then 0 else (a + b) % 2 + 2 * Xor(a / 2, b / 2)
  }

  /** `g = hval & (0xf << 28); if (g != 0) { hval ^= g >> 24; hval ^= g; }` */
  function Fold(h: nat): nat {
    var top := (h / TWO28) % 16;
    var g := top * TWO28;
    if g != 0 then Xor(Xor(h, g / 0x100_0000), g) else h
  }

  /** One turn of the loop, where `unsigned long` holds numbers below `m`. */
  function Step(hval: nat, c: nat, m: nat): nat
    requires m > 0
  {
    Fold((hval * 16 + c) % m)
  }

  function Hash(s: string, m: nat): nat
    requires m > 0
  {
    if s == "" then 0 else Step(Hash(s[..|s| - 1], m), UnsignedChar(s[|s| - 1]), m)
  }

  // ----- What folding does to the digits of a number in base 16 -----

  lemma Half(a: nat, b: nat)
    requires b < 2
    ensures (2 * a + b) / 2 == a
  {
  }

  lemma ParityOfSum(a: nat, b: nat, c: nat, d: nat)
    ensures (2 * a + b + (2 * c + d)) % 2 == (b + d) % 2
  {
    assert 2 * a + b + (2 * c + d) == 2 * (a + c) + (b + d);
  }

  lemma XorStep(x: nat, y: nat)
    ensures Xor(x, y) == (x + y) % 2 + 2 * Xor(x / 2, y / 2)
  {
    if x == 0 && y == 0 { assert Xor(0, 0) == 0; }
  }

  lemma XorBit(a: nat, b: nat, c: nat, d: nat)
    requires b < 2 && d < 2
    ensures Xor(2 * a + b, 2 * c + d) == 2 * Xor(a, c) + (b + d) % 2
  {
    hide Xor;
    XorStep(2 * a + b, 2 * c + d);
    Half(a, b);
    Half(c, d);
    ParityOfSum(a, b, c, d);
  }

  lemma {:induction false} XorZero(a: nat)
    ensures Xor(a, 0) == a
  {
    if a > 0 {
      XorZero(a / 2);
    }
  }

  lemma {:induction false} XorSelf(a: nat)
    ensures Xor(a, a) == 0
  {
    if a > 0 {
      XorSelf(a / 2);
    }
  }

  lemma {:induction false} XorBound(a: nat, b: nat, k: nat)
    requires a < Power2(k) && b < Power2(k)
    ensures Xor(a, b) < Power2(k)
  {
    if k > 0 {
      XorBound(a / 2, b / 2, k - 1);
    }
  }

  lemma XorBits(a: nat, b3: nat, b2: nat, b1: nat, b0: nat, c: nat, d3: nat, d2: nat, d1: nat, d0: nat)
    requires b3 < 2 && b2 < 2 && b1 < 2 && b0 < 2 && d3 < 2 && d2 < 2 && d1 < 2 && d0 < 2
    ensures Xor(16 * a + 8 * b3 + 4 * b2 + 2 * b1 + b0, 16 * c + 8 * d3 + 4 * d2 + 2 * d1 + d0)
            == 16 * Xor(a, c) + 8 * ((b3 + d3) % 2) + 4 * ((b2 + d2) % 2) + 2 * ((b1 + d1) % 2) + (b0 + d0) % 2
  {
    hide Xor;
    XorBit(8 * a + 4 * b3 + 2 * b2 + b1, b0, 8 * c + 4 * d3 + 2 * d2 + d1, d0);
    XorBit(4 * a + 2 * b3 + b2, b1, 4 * c + 2 * d3 + d2, d1);
    XorBit(2 * a + b3, b2, 2 * c + d3, d2);
    XorBit(a, b3, c, d3);
  }

  lemma Bits(b: nat) returns (b3: nat, b2: nat, b1: nat, b0: nat)
    requires b < 16
    ensures b3 < 2 && b2 < 2 && b1 < 2 && b0 < 2 && b == 8 * b3 + 4 * b2 + 2 * b1 + b0
  {
    b3, b2, b1, b0 := b / 8, b / 4 % 2, b / 2 % 2, b % 2;
  }

  /** Digits in base 16 do not influence each other. */
  lemma XorDigit(a: nat, b: nat, c: nat, d: nat)
    requires b < 16 && d < 16
    ensures Xor(16 * a + b, 16 * c + d) == 16 * Xor(a, c) + Xor(b, d)
  {
    hide Xor;
    var b3, b2, b1, b0 := Bits(b);
    var d3, d2, d1, d0 := Bits(d);
    XorBits(a, b3, b2, b1, b0, c, d3, d2, d1, d0);
    XorBits(0, b3, b2, b1, b0, 0, d3, d2, d1, d0);
    XorZero(0);
  }

  /** Exclusive or with a multiple of 16 keeps the lowest digit. */
  lemma XorKeep(y: nat, t: nat)
    ensures Xor(y, 16 * t) == 16 * Xor(y / 16, t) + y % 16
  {
    XorDigit(y / 16, y % 16, t, 0);
    XorZero(y % 16);
  }

  /** Exclusive or with a multiple of 2^12 keeps three digits. */
  lemma XorKeep3(y: nat, t: nat)
    ensures Xor(y, 0x1000 * t) == 0x1000 * Xor(y / 0x1000, t) + y % 0x1000
  {
    hide Xor;
    XorKeep(y, 0x100 * t);
    XorKeep(y / 16, 16 * t);
    XorKeep(y / 16 / 16, t);
    assert y / 16 / 16 / 16 == y / 0x1000;
  }

  /** Exclusive or with a multiple of 2^28 keeps seven digits. */
  lemma XorKeep7(y: nat, t: nat)
    ensures Xor(y, TWO28 * t) == TWO28 * Xor(y / TWO28, t) + y % TWO28
  {
    hide Xor;
    XorKeep3(y, 0x1_0000 * t);
    XorKeep3(y / 0x1000, 16 * t);
    XorKeep(y / 0x1000 / 0x1000, t);
    Quotient3(y);
  }

  lemma Quotient3(y: nat)
    ensures y / 0x1000 / 0x1000 / 16 == y / TWO28
    ensures y % TWO28 == (y / 0x1000 / 0x1000 % 16) * 0x100_0000 + (y / 0x1000 % 0x1000) * 0x1000 + y % 0x1000
  {
  }

  /** Folding a number that is given by its digits: bits 28 to 31 are cleared, the digit above
      the lowest one changes, and the bits from 32 on stay. */
  lemma FoldDigits(high: nat, top: nat, mid: nat, low: nat, last: nat)
    requires top < 16 && mid < 0x10_0000 && low < 16 && last < 16
    ensures Fold(high * TWO32 + top * TWO28 + mid * 256 + low * 16 + last)
            == high * TWO32 + mid * 256 + Xor(low, top) * 16 + last
    ensures Xor(low, top) < 16
  {
    hide Xor, Fold, Power2;
    var up := (high * 16 + top) * 0x10_0000 + mid;
    var h := 256 * up + low * 16 + last;
    FoldIs(h, high, top, mid * 256 + low * 16 + last);
    XorKeep(h, top);
    XorDigit(up, low, 0, top);
    XorZero(up);
    XorZero(top);
    XorDigits(low, top);
    var y := Xor(h, 16 * top);
    assert y == 256 * up + Xor(low, top) * 16 + last;
    XorZero(low);
    FoldTop(y, high, top, mid * 256 + Xor(low, top) * 16 + last);
  }

  lemma FoldIs(h: nat, high: nat, top: nat, r: nat)
    requires top < 16 && r < TWO28 && h == (16 * high + top) * TWO28 + r
    ensures Fold(h) == if top == 0 then h else Xor(Xor(h, 16 * top), TWO28 * top)
  {
    hide Xor;
    TopDigit(h, high, top, r);
    assert top * TWO28 / 0x100_0000 == 16 * top;
  }

  lemma TopDigit(h: nat, high: nat, top: nat, r: nat)
    requires top < 16 && r < TWO28 && h == (16 * high + top) * TWO28 + r
    ensures (h / TWO28) % 16 == top
  {
    assert h / TWO28 == 16 * high + top;
  }

  lemma XorDigits(a: nat, b: nat)
    requires a < 16 && b < 16
    ensures Xor(a, b) < 16
  {
    assert Power2(4) == 16;
    XorBound(a, b, 4);
  }

  lemma FoldTop(y: nat, high: nat, top: nat, r: nat)
    requires top < 16 && r < TWO28 && y == (16 * high + top) * TWO28 + r
    ensures Xor(y, TWO28 * top) == high * TWO32 + r
  {
    hide Xor;
    XorKeep7(y, top);
    XorDigit(high, top, 0, top);
    XorZero(high);
    XorSelf(top);
  }

  lemma Digits(h: nat) returns (high: nat, top: nat, mid: nat, low: nat, last: nat)
    ensures top < 16 && mid < 0x10_0000 && low < 16 && last < 16
    ensures h == high * TWO32 + top * TWO28 + mid * 256 + low * 16 + last
  {
    var word := h % TWO32;
    var r := word % TWO28;
    var byte := r % 256;
    high, top, mid, low, last := h / TWO32, word / TWO28, r / 256, byte / 16, byte % 16;
  }

  lemma FoldLow(x: nat)
    ensures Fold(x) % TWO32 == Fold(x % TWO32) < TWO28
  {
    hide Xor, Fold;
    var high, top, mid, low, last := Digits(x);
    FoldDigits(high, top, mid, low, last);
    FoldDigits(0, top, mid, low, last);
    assert x % TWO32 == top * TWO28 + mid * 256 + low * 16 + last;
  }

  /** Reducing by a multiple of 2^32 keeps the low 32 bits. */
  lemma LowBits(x: nat, k: nat)
    requires k > 0
    ensures k * TWO32 > 0 && (x % (k * TWO32)) % TWO32 == x % TWO32
  {
    var m := k * TWO32;
    var q, r := x / m, x % m;
    assert x == q * m + r;
    assert q * m == (q * k) * TWO32;
  }

  /** What the shift carries past bit 31 does not come back. */
  lemma CarryLost(w: nat, c: nat)
    ensures (w * 16 + c) % TWO32 == ((w % TWO32) * 16 + c) % TWO32
  {
    var a, y := w / TWO32, w % TWO32;
    assert w * 16 + c == (y * 16 + c) + (16 * a) * TWO32;
  }

  lemma StepAgrees(w: nat, c: nat, k: nat)
    requires k > 0
    ensures k * TWO32 > 0 && Step(w, c, k * TWO32) % TWO32 == Step(w % TWO32, c, TWO32) < TWO28
  {
    hide Fold;
    var m := k * TWO32;
    assert m > 0;
    var x := w * 16 + c;
    LowBits(x, k);
    CarryLost(w, c);
    FoldLow(x % m);
  }

  /** The low 32 bits do not depend on the width of `unsigned long`, although a wider
      accumulator keeps what is carried past bit 31; bits 28 to 31 are clear after every
      character. */
  lemma {:induction false} HashAgrees(s: string, k: nat)
    requires k > 0
    ensures k * TWO32 > 0 && Hash(s, k * TWO32) % TWO32 == Hash(s, TWO32) < TWO28
  {
    hide Step;
    assert k * TWO32 > 0;
    if s != "" {
      HashAgrees(s[..|s| - 1], k);
      StepAgrees(Hash(s[..|s| - 1], k * TWO32), UnsignedChar(s[|s| - 1]), k);
    }
  }

  // ----- What the hash of a string is -----

  predicate Bytes(s: string) { forall k :: 0 <= k < |s| ==> s[k] as int < 256 }

  /** The number with the bytes of `s` for digits, which may carry, in base 16. */
  function BaseSixteen(s: string): nat {
    if s == "" then 0 else BaseSixteen(s[..|s| - 1]) * 16 + s[|s| - 1] as int
  }

  lemma HashNext(s: string, c: char)
    requires c as int < 256
    ensures Hash(s + [c], TWO32) == Fold((Hash(s, TWO32) * 16 + c as int) % TWO32)
  {
    hide Fold;
    assert (s + [c])[..|s|] == s;
  }

  /** One character more: the hash is multiplied by 16, the byte is added, what exceeds 32 bits is lost, and the
      bits above the 28th are folded into the second digit. */
  lemma HashOneMore(s: string, c: char, high: nat, top: nat, mid: nat, low: nat, last: nat)
    requires c as int < 256 && top < 16 && mid < 0x10_0000 && low < 16 && last < 16
    requires 16 * Hash(s, TWO32) + c as int == high * TWO32 + top * TWO28 + mid * 256 + low * 16 + last
    ensures Hash(s + [c], TWO32) == mid * 256 + Xor(low, top) * 16 + last
  {
    hide Fold, Xor, Hash;
    HashNext(s, c);
    FoldDigits(0, top, mid, low, last);
    LowWord(high, top * TWO28 + mid * 256 + low * 16 + last);
  }

  lemma LowWord(high: nat, r: nat)
    requires r < TWO32
    ensures (high * TWO32 + r) % TWO32 == r
  {
  }

  lemma SmallFold(x: nat)
    requires x < TWO28
    ensures Fold(x % TWO32) == x
  {
    hide Xor;
    assert x / TWO28 == 0;
  }

  lemma {:induction false} BaseSixteenGrows(s: string, n: nat)
    requires n <= |s|
    ensures BaseSixteen(s[..n]) <= BaseSixteen(s)
    decreases |s| - n
  {
    if n < |s| {
      BaseSixteenGrows(s, n + 1);
      assert s[..n + 1][..n] == s[..n];
    } else {
      assert s[..n] == s;
    }
  }

  /** Without a carry the hash is this number. */
  lemma {:induction false} HashIsNumber(s: string)
    requires Bytes(s) && BaseSixteen(s) < TWO28
    ensures Hash(s, TWO32) == BaseSixteen(s)
  {
    hide Fold, Hash;
    if s == "" {
      HashOfNothing();
    } else {
      var t, c := s[..|s| - 1], s[|s| - 1];
      BaseSixteenGrows(s, |s| - 1);
      HashIsNumber(t);
      assert s == t + [c];
      HashNext(t, c);
      SmallFold(BaseSixteen(s));
    }
  }

  lemma HashOfNothing()
    ensures Hash("", TWO32) == 0
  {
  }

  /** A single byte is its own hash. */
  lemma HashOfByte(c: char)
    requires c as int < 256
    ensures Hash([c], TWO32) == c as int
  {
    hide Hash;
    assert [c][..0] == "" && BaseSixteen("") == 0;
    HashIsNumber([c]);
  }

  method HashString(str: string, m: nat) returns (hval: nat)
    requires m > 0
    ensures hval == Hash(CString(str), m)
  {
    hide Step;
    ghost var s := CString(str);
    hval := 0;
    var i := 0;
    while i < |str| && str[i] != '\0'
      invariant 0 <= i <= |s| && hval == Hash(s[..i], m)
    {
      assert s[..i + 1][..i] == s[..i];
      hval := Step(hval, UnsignedChar(str[i]), m);
      i := i + 1;
    }
    assert s[..i] == s;
  }
}
