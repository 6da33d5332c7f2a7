/** Bit masks of locale name parts: `pop` counts their bits, and a mask has two to the power of
    this count submasks. */
module LocaleMask {
  import opened Arith

  function Both(p: nat, q: nat): nat { if p == 1 && q == 1 then 1 else 0 }

  /** Bitwise and. */
  function And(a: nat, b: nat): (r: nat)
    ensures r <= a && r <= b
  {
    if a == 0 || b == 0 then 0 else 2 * And(a / 2, b / 2) + Both(a % 2, b % 2)
  }

  /** `a & ~b`. */
  function Without(a: nat, b: nat): nat { a - And(a, b) }

  // ----- Digits -----

  /** A number with one more bit, or with one more nibble, at its low end. */
  function Push(a: nat, p: nat): nat { 2 * a + p }

  function Hex(a: nat, n: nat): nat { 16 * a + n }

  function Push4(a: nat, p3: nat, p2: nat, p1: nat, p0: nat): nat { Push(Push(Push(Push(a, p3), p2), p1), p0) }

  lemma AndPush(a: nat, b: nat, p: nat, q: nat)
    requires p < 2 && q < 2
    ensures And(Push(a, p), Push(b, q)) == Push(And(a, b), Both(p, q))
  {
    var x, y := Push(a, p), Push(b, q);
    Halves(a, p);
    Halves(b, q);
    assert x == 0 || y == 0 ==> (a == 0 || b == 0) && Both(p, q) == 0;
  }

  lemma Halves(a: nat, p: nat)
    requires p < 2
    ensures Push(a, p) / 2 == a && Push(a, p) % 2 == p
  {
  }

  lemma AndZero()
    ensures And(0, 0) == 0
  {
  }

  lemma AndPush4(a: nat, b: nat, p3: nat, p2: nat, p1: nat, p0: nat, q3: nat, q2: nat, q1: nat, q0: nat)
    requires p3 < 2 && p2 < 2 && p1 < 2 && p0 < 2 && q3 < 2 && q2 < 2 && q1 < 2 && q0 < 2
    ensures And(Push4(a, p3, p2, p1, p0), Push4(b, q3, q2, q1, q0)) ==
            Push4(And(a, b), Both(p3, q3), Both(p2, q2), Both(p1, q1), Both(p0, q0))
  {
    hide And, Both, Push;
    var a1, b1 := Push(a, p3), Push(b, q3);
    var a2, b2 := Push(a1, p2), Push(b1, q2);
    var a3, b3 := Push(a2, p1), Push(b2, q1);
    AndPush(a, b, p3, q3);
    AndPush(a1, b1, p2, q2);
    AndPush(a2, b2, p1, q1);
    AndPush(a3, b3, p0, q0);
  }

  /** The bits of a number below 16. */
  lemma Bits(p: nat) returns (p3: nat, p2: nat, p1: nat, p0: nat)
    requires p < 16
    ensures p3 < 2 && p2 < 2 && p1 < 2 && p0 < 2 && p == Push4(0, p3, p2, p1, p0)
  {
    var h := p / 2;
    p0 := p % 2;
    p1 := h % 2;
    h := h / 2;
    p2 := h % 2;
    p3 := h / 2;
  }

  lemma HexBits(a: nat, p3: nat, p2: nat, p1: nat, p0: nat)
    ensures Hex(a, Push4(0, p3, p2, p1, p0)) == Push4(a, p3, p2, p1, p0)
  {
  }

  /** The low nibble is independent of the rest. */
  lemma AndHex(a: nat, b: nat, n: nat, m: nat)
    requires n < 16 && m < 16
    ensures And(Hex(a, n), Hex(b, m)) == Hex(And(a, b), And(n, m))
  {
    hide And, Both, Push4, Hex;
    var p3, p2, p1, p0 := Bits(n);
    var q3, q2, q1, q0 := Bits(m);
    HexBits(a, p3, p2, p1, p0);
    HexBits(b, q3, q2, q1, q0);
    AndPush4(a, b, p3, p2, p1, p0, q3, q2, q1, q0);
    AndPush4(0, 0, p3, p2, p1, p0, q3, q2, q1, q0);
    AndZero();
    HexBits(And(a, b), Both(p3, q3), Both(p2, q2), Both(p1, q1), Both(p0, q0));
  }

  function Number(n0: nat, n1: nat, n2: nat, n3: nat): nat { Hex(Hex(Hex(n3, n2), n1), n0) }

  lemma AndNumber(a0: nat, a1: nat, a2: nat, a3: nat, b0: nat, b1: nat, b2: nat, b3: nat)
    requires a0 < 16 && a1 < 16 && a2 < 16 && a3 < 16 && b0 < 16 && b1 < 16 && b2 < 16 && b3 < 16
    ensures And(Number(a0, a1, a2, a3), Number(b0, b1, b2, b3)) ==
            Number(And(a0, b0), And(a1, b1), And(a2, b2), And(a3, b3))
  {
    hide And, Hex;
    AndHex(Hex(Hex(a3, a2), a1), Hex(Hex(b3, b2), b1), a0, b0);
    AndHex(Hex(a3, a2), Hex(b3, b2), a1, b1);
    AndHex(a3, b3, a2, b2);
  }

  /** A nibble under a mask that is given by its bits. */
  lemma AndMask(n: nat, p3: nat, p2: nat, p1: nat, p0: nat, m: nat, m3: nat, m2: nat, m1: nat, m0: nat)
    requires p3 < 2 && p2 < 2 && p1 < 2 && p0 < 2 && n == Push4(0, p3, p2, p1, p0)
    requires m3 < 2 && m2 < 2 && m1 < 2 && m0 < 2 && m == Push4(0, m3, m2, m1, m0)
    ensures And(n, m) == Push4(0, Both(p3, m3), Both(p2, m2), Both(p1, m1), Both(p0, m0))
  {
    hide And, Both, Push4;
    AndZero();
    AndPush4(0, 0, p3, p2, p1, p0, m3, m2, m1, m0);
  }

  // ----- Counting bits -----

  function BitCount(x: nat): nat { if x == 0 then 0 else x % 2 + BitCount(x / 2) }

  // The four assignments of `pop`.

  function Pairs(x: nat): nat { Without(x, 0x5555) / 2 + And(x, 0x5555) }

  function Quads(x: nat): nat { Without(x, 0x3333) / 4 + And(x, 0x3333) }

  function Bytes(x: nat): nat { And(x / 16 + x, 0x0f0f) }

  function Total(x: nat): nat { And(x / 256 + x, 0xff) }

  function Pop(x: nat): nat { Total(Bytes(Quads(Pairs(x)))) }

  function Two(h: nat, l: nat): nat { 4 * h + l }

  /** A nibble by its bits, and the counts that the steps leave in it. */
  datatype Four = Four(b3: nat, b2: nat, b1: nat, b0: nat) {
    predicate Ok() { b3 < 2 && b2 < 2 && b1 < 2 && b0 < 2 }
    function Value(): nat { Push4(0, b3, b2, b1, b0) }
    function High(): nat { b3 + b2 }
    function Low(): nat { b1 + b0 }
    function PairCounts(): nat { Two(High(), Low()) }
    function Ones(): nat { High() + Low() }
  }

  lemma NibblePairs(n: Four)
    requires n.Ok()
    ensures n.Value() < 16 && And(n.Value(), 5) == 4 * n.b2 + n.b0
  {
    hide And;
    AndMask(n.Value(), n.b3, n.b2, n.b1, n.b0, 5, 0, 1, 0, 1);
  }

  lemma PairsAre(a: Four, b: Four, c: Four, d: Four)
    requires a.Ok() && b.Ok() && c.Ok() && d.Ok()
    ensures Pairs(Number(a.Value(), b.Value(), c.Value(), d.Value())) ==
            Number(a.PairCounts(), b.PairCounts(), c.PairCounts(), d.PairCounts())
  {
    hide And;
    NibblePairs(a);
    NibblePairs(b);
    NibblePairs(c);
    NibblePairs(d);
    AndNumber(a.Value(), b.Value(), c.Value(), d.Value(), 5, 5, 5, 5);
    Half(a.b3, a.b1, b.b3, b.b1, c.b3, c.b1, d.b3, d.b1);
  }

  lemma Half(a3: nat, a1: nat, b3: nat, b1: nat, c3: nat, c1: nat, d3: nat, d1: nat)
    ensures Number(8 * a3 + 2 * a1, 8 * b3 + 2 * b1, 8 * c3 + 2 * c1, 8 * d3 + 2 * d1) / 2 ==
            Number(4 * a3 + a1, 4 * b3 + b1, 4 * c3 + c1, 4 * d3 + d1)
  {
  }

  /** Two-bit counts `4 * h + l` keep their low half under the mask 3. */
  lemma MaskThree(h: nat, l: nat)
    requires h <= 2 && l <= 2
    ensures Two(h, l) < 16 && And(Two(h, l), 3) == l
  {
    hide And;
    var h1, h0, l1, l0 := h / 2, h % 2, l / 2, l % 2;
    AndMask(Two(h, l), h1, h0, l1, l0, 3, 0, 0, 1, 1);
  }

  lemma QuadsAre(ah: nat, al: nat, bh: nat, bl: nat, ch: nat, cl: nat, dh: nat, dl: nat)
    requires ah <= 2 && al <= 2 && bh <= 2 && bl <= 2 && ch <= 2 && cl <= 2 && dh <= 2 && dl <= 2
    ensures Quads(Number(Two(ah, al), Two(bh, bl), Two(ch, cl), Two(dh, dl)))
            == Number(ah + al, bh + bl, ch + cl, dh + dl)
  {
    hide And;
    MaskThree(ah, al);
    MaskThree(bh, bl);
    MaskThree(ch, cl);
    MaskThree(dh, dl);
    AndNumber(Two(ah, al), Two(bh, bl), Two(ch, cl), Two(dh, dl), 3, 3, 3, 3);
    Quarter(ah, bh, ch, dh);
  }

  lemma Quarter(a: nat, b: nat, c: nat, d: nat)
    ensures Number(4 * a, 4 * b, 4 * c, 4 * d) / 4 == Number(a, b, c, d)
  {
  }

  lemma Mask(n: nat)
    requires n < 16
    ensures And(n, 15) == n && And(n, 0) == 0
  {
    hide And, Push4;
    var p3, p2, p1, p0 := Bits(n);
    Masks();
    AndMask(n, p3, p2, p1, p0, 15, 1, 1, 1, 1);
    AndMask(n, p3, p2, p1, p0, 0, 0, 0, 0, 0);
  }

  lemma Masks()
    ensures Push4(0, 1, 1, 1, 1) == 15 && Push4(0, 0, 0, 0, 0) == 0
  {
  }

  lemma BytesAre(a: nat, b: nat, c: nat, d: nat)
    requires a <= 4 && b <= 4 && c <= 4 && d <= 4
    ensures Bytes(Number(a, b, c, d)) == Number(a + b, 0, c + d, 0)
  {
    hide And;
    ShiftNibble(a, b, c, d);
    Mask(a + b);
    Mask(b + c);
    Mask(c + d);
    Mask(d);
    AndNumber(a + b, b + c, c + d, d, 15, 0, 15, 0);
  }

  lemma ShiftNibble(a: nat, b: nat, c: nat, d: nat)
    requires a < 16
    ensures Number(a, b, c, d) / 16 == Number(b, c, d, 0)
  {
  }

  lemma TotalIs(a: nat, c: nat)
    requires a <= 8 && c <= 8
    ensures Total(Number(a, 0, c, 0)) == a + c
  {
    hide And;
    ShiftByte(a, c);
    var s := a + c;
    Mask(s % 16);
    Mask(s / 16);
    Mask(c);
    Mask(0);
    AndNumber(s % 16, s / 16, c, 0, 15, 15, 0, 0);
  }

  lemma ShiftByte(a: nat, c: nat)
    requires a < 16
    ensures Number(a, 0, c, 0) / 256 == c
  {
  }

  lemma BitCountPush(a: nat, p: nat)
    requires p < 2
    ensures BitCount(Push(a, p)) == BitCount(a) + p
  {
  }

  lemma BitCountHex(a: nat, n: Four)
    requires n.Ok()
    ensures BitCount(Hex(a, n.Value())) == BitCount(a) + n.Ones()
  {
    hide BitCount, Push, Hex;
    HexBits(a, n.b3, n.b2, n.b1, n.b0);
    BitCountPush(a, n.b3);
    BitCountPush(Push(a, n.b3), n.b2);
    BitCountPush(Push(Push(a, n.b3), n.b2), n.b1);
    BitCountPush(Push(Push(Push(a, n.b3), n.b2), n.b1), n.b0);
  }

  lemma BitCountNumber(a: Four, b: Four, c: Four, d: Four)
    requires a.Ok() && b.Ok() && c.Ok() && d.Ok()
    ensures BitCount(Number(a.Value(), b.Value(), c.Value(), d.Value())) == a.Ones() + b.Ones() + c.Ones() + d.Ones()
  {
    hide BitCount, Hex, Push4;
    var x1 := d.Value();
    var x2 := Hex(x1, c.Value());
    var x3 := Hex(x2, b.Value());
    HexZero(x1);
    BitCountHex(0, d);
    BitCountHex(x1, c);
    BitCountHex(x2, b);
    BitCountHex(x3, a);
    BitCountZero();
  }

  lemma HexZero(n: nat)
    ensures Hex(0, n) == n
  {
  }

  lemma BitCountZero()
    ensures BitCount(0) == 0
  {
  }

  lemma FourOf(x: nat) returns (n: Four)
    requires x < 16
    ensures n.Ok() && n.Value() == x
  {
    var p3, p2, p1, p0 := Bits(x);
    n := Four(p3, p2, p1, p0);
  }

  lemma HighLow(n: Four)
    requires n.Ok()
    ensures n.High() <= 2 && n.Low() <= 2
  {
  }

  lemma QuadsOf(a: Four, b: Four, c: Four, d: Four)
    requires a.Ok() && b.Ok() && c.Ok() && d.Ok()
    ensures Quads(Number(a.PairCounts(), b.PairCounts(), c.PairCounts(), d.PairCounts())) ==
            Number(a.Ones(), b.Ones(), c.Ones(), d.Ones())
    ensures a.Ones() <= 4 && b.Ones() <= 4 && c.Ones() <= 4 && d.Ones() <= 4
  {
    hide Quads, Number, Two, Four.Ok, Four.High, Four.Low;
    HighLow(a);
    HighLow(b);
    HighLow(c);
    HighLow(d);
    var ah, al, bh, bl := a.High(), a.Low(), b.High(), b.Low();
    var ch, cl, dh, dl := c.High(), c.Low(), d.High(), d.Low();
    QuadsAre(ah, al, bh, bl, ch, cl, dh, dl);
  }

  lemma PopNumber(a: Four, b: Four, c: Four, d: Four)
    requires a.Ok() && b.Ok() && c.Ok() && d.Ok()
    ensures Pop(Number(a.Value(), b.Value(), c.Value(), d.Value())) == a.Ones() + b.Ones() + c.Ones() + d.Ones()
  {
    hide Pairs, Quads, Bytes, Total, Number, Four.Ok, Four.Value, Four.PairCounts, Four.Ones;
    PairsAre(a, b, c, d);
    QuadsOf(a, b, c, d);
    BytesAre(a.Ones(), b.Ones(), c.Ones(), d.Ones());
    TotalIs(a.Ones() + b.Ones(), c.Ones() + d.Ones());
  }

  /** As long as no more than 16 bits are used, `pop` is the number of bits that are set. */
  lemma PopCounts(x: nat)
    requires x < 0x10000
    ensures Pop(x) == BitCount(x)
  {
    hide BitCount, Pop, Number, Four.Ok, Four.Value, Four.Ones;
    NumberOf(x);
    var a := FourOf(x % 16);
    var b := FourOf(x / 16 % 16);
    var c := FourOf(x / 256 % 16);
    var d := FourOf(x / 4096);
    PopNumber(a, b, c, d);
    BitCountNumber(a, b, c, d);
  }

  lemma NumberOf(x: nat)
    requires x < 0x10000
    ensures x / 4096 < 16 && x == Number(x % 16, x / 16 % 16, x / 256 % 16, x / 4096)
  {
    assert x / 256 == x / 16 / 16 && x / 4096 == x / 256 / 16;
  }

  // ----- Submasks -----

  /** `(c & ~m) == 0`. */
  predicate Submask(c: nat, m: nat) { Without(c, m) == 0 }

  function One(b: bool): nat { if b then 1 else 0 }

  /** How many submasks of `m` are below `n`. */
  function SubmasksBelow(n: nat, m: nat): nat {
    if n == 0 then 0 else SubmasksBelow(n - 1, m) + One(Submask(n - 1, m))
  }

  lemma SubmaskStep(c: nat, m: nat)
    ensures Submask(2 * c, m) <==> Submask(c, m / 2)
    ensures Submask(2 * c + 1, m) <==> m % 2 == 1 && Submask(c, m / 2)
  {
    hide And;
    AndPush(c, m / 2, 0, m % 2);
    AndPush(c, m / 2, 1, m % 2);
  }

  lemma {:induction false} BelowDouble(n: nat, m: nat)
    ensures SubmasksBelow(2 * n, m) == if m % 2 == 1 then 2 * SubmasksBelow(n, m / 2) else SubmasksBelow(n, m / 2)
  {
    if n > 0 {
      hide Submask, SubmasksBelow;
      var c, h := n - 1, m / 2;
      BelowDouble(c, m);
      SubmaskStep(c, m);
      BelowStep(c, h);
      BelowStep(2 * c, m);
      BelowStep(2 * c + 1, m);
      assert SubmasksBelow(2 * n, m)
             == SubmasksBelow(2 * c, m) + One(Submask(2 * c, m)) + One(Submask(2 * c + 1, m)) by {
        assert 2 * n == 2 * c + 1 + 1;
      }
    }
  }

  lemma BelowStep(n: nat, m: nat)
    ensures SubmasksBelow(n + 1, m) == SubmasksBelow(n, m) + One(Submask(n, m))
  {
  }

  /** No submask is larger than the mask. */
  lemma {:induction false} BelowBeyond(n: nat, k: nat, m: nat)
    requires m < n
    ensures SubmasksBelow(n + k, m) == SubmasksBelow(n, m)
  {
    if k > 0 {
      BelowBeyond(n, k - 1, m);
    }
  }

  /** A mask has two to the power of its number of bits submasks, itself included. */
  lemma {:induction false} SubmaskCount(m: nat)
    ensures SubmasksBelow(m + 1, m) == Power2(BitCount(m))
  {
    hide Submask;
    if m == 0 {
      SubmaskOfZero();
    } else {
      SubmaskCount(m / 2);
      BelowDouble(m / 2 + 1, m);
      BelowBeyond(m + 1, 2 * (m / 2 + 1) - (m + 1), m);
    }
  }

  lemma SubmaskOfZero()
    ensures Submask(0, 0)
  {
  }

  lemma SubmaskOfItself(m: nat)
    ensures Submask(m, m)
  {
    if m > 0 { SubmaskOfItself(m / 2); }
  }
}
