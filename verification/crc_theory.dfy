/**
 What the checksum promises, as algebra over GF(2). A message is read as a polynomial, first bit
 highest; the register holds the remainder of the message times x^8. The lemmas say exactly which
 transmission errors `crc_check` notices.
 */
module CrcTheory {
  import opened Bytes
  import opened Crc8

  // ----- The register: polynomials of degree below 8, with addition and multiplication by x

  datatype Poly = Poly(c: bv8)

  const ZERO := Poly(0)

  /** x^7, where a message bit enters the register. */
  const X7 := Poly(0x80)

  function Plus(a: Poly, b: Poly): Poly {
    Poly(a.c ^ b.c)
  }

  function TimesX(a: Poly): Poly {
    Poly(Step(a.c))
  }

  function TimesXn(n: nat, a: Poly): Poly {
    if n == 0 then a else TimesX(TimesXn(n - 1, a))
  }

  function Bit(t: bool): Poly {
    if t then X7 else ZERO
  }

  predicate Top(a: Poly) {
    a.c & 0x80 != 0
  }

  /** A left shift that forgets the top bit. */
  function Shl(a: Poly): Poly {
    Poly(a.c << 1)
  }

  lemma PlusComm(a: Poly, b: Poly)
    ensures Plus(a, b) == Plus(b, a)
  {
  }

  lemma PlusAssoc(a: Poly, b: Poly, c: Poly)
    ensures Plus(Plus(a, b), c) == Plus(a, Plus(b, c))
  {
  }

  lemma PlusZero(a: Poly)
    ensures Plus(a, ZERO) == a && Plus(ZERO, a) == a && Plus(a, a) == ZERO
  {
  }

  lemma PlusCancel(a: Poly, b: Poly)
    requires Plus(a, b) == ZERO
    ensures a == b
  {
    var c, d := a.c, b.c;
    assert c ^ d == 0 ==> c == d;
  }

  lemma TimesXPlus(a: Poly, b: Poly)
    ensures TimesX(Plus(a, b)) == Plus(TimesX(a), TimesX(b))
  {
    hide Step;
    var x, y := a.c, b.c;
    var sum := x ^ y;
    StepLinear(x, y);
    assert Plus(a, b) == Poly(sum);
    assert TimesX(Poly(sum)) == Poly(Step(sum));
  }

  lemma TimesXZero(a: Poly)
    ensures TimesX(a) == ZERO <==> a == ZERO
  {
    var c := a.c;
    assert Step(c) == 0 ==> c == 0;
  }

  lemma BitSum(s: bool, t: bool)
    ensures Bit(s != t) == Plus(Bit(s), Bit(t))
  {
  }

  function Rest(v: Poly): Poly {
    Poly(v.c & 0x7F)
  }

  lemma TopAndRest(v: Poly)
    ensures Plus(Bit(Top(v)), Rest(v)) == v
    ensures TimesX(Rest(v)) == Shl(v)
  {
    var c := v.c;
    assert Bit(Top(v)).c == c & 0x80;
    assert (c & 0x80) ^ (c & 0x7F) == c;
    assert Step(c & 0x7F) == c << 1;
  }

  /** Feeding the top bit of v, and then owing the rest of v, is feeding v at once. */
  lemma FeedTopBit(c: Poly, v: Poly)
    ensures Plus(TimesX(Plus(c, Bit(Top(v)))), Shl(v)) == TimesX(Plus(c, v))
  {
    hide Plus, TimesX, Bit, Top, Rest, Shl;
    TopAndRest(v);
    TimesXPlus(Plus(c, Bit(Top(v))), Rest(v));
    PlusAssoc(c, Bit(Top(v)), Rest(v));
  }

  lemma TimesXnPlus(n: nat, a: Poly, b: Poly)
    ensures TimesXn(n, Plus(a, b)) == Plus(TimesXn(n, a), TimesXn(n, b))
  {
    hide Plus, TimesX;
    if n > 0 {
      TimesXnPlus(n - 1, a, b);
      TimesXPlus(TimesXn(n - 1, a), TimesXn(n - 1, b));
    }
  }

  lemma TimesXnZero(n: nat, a: Poly)
    ensures TimesXn(n, a) == ZERO <==> a == ZERO
  {
    hide TimesX;
    if n > 0 {
      TimesXnZero(n - 1, a);
      TimesXZero(TimesXn(n - 1, a));
    }
  }

  lemma TimesXnSum(m: nat, n: nat, a: Poly)
    ensures TimesXn(m + n, a) == TimesXn(m, TimesXn(n, a))
  {
    hide TimesX;
    if m > 0 {
      TimesXnSum(m - 1, n, a);
    }
  }

  // ----- Messages as bit sequences

  /** The k highest bits of v, highest first. */
  function TopBits(v: Poly, k: nat): (r: seq<bool>)
    ensures |r| == k
    decreases k
  {
    if k == 0 then [] else [Top(v)] + TopBits(Shl(v), k - 1)
  }

  function ShlN(v: Poly, k: nat): Poly
    decreases k
  {
    if k == 0 then v else ShlN(Shl(v), k - 1)
  }

  function Bits(p: Poly): (r: seq<bool>)
    ensures |r| == 8
  {
    TopBits(p, 8)
  }

  function AllBits(data: seq<bv8>): (r: seq<bool>)
    ensures |r| == 8 * |data|
  {
    if data == [] then [] else AllBits(data[..|data| - 1]) + Bits(Poly(data[|data| - 1]))
  }

  /** The register takes in one message bit. */
  function StepIn(c: Poly, t: bool): Poly {
    TimesX(Plus(c, Bit(t)))
  }

  /** The register after a whole bit sequence, one bit at a time. */
  function Reg(bits: seq<bool>): Poly {
    if bits == [] then ZERO else StepIn(Reg(bits[..|bits| - 1]), bits[|bits| - 1])
  }

  lemma RegSnoc(bits: seq<bool>, t: bool)
    ensures Reg(bits + [t]) == StepIn(Reg(bits), t)
  {
    assert (bits + [t])[..|bits|] == bits;
  }

  lemma {:induction false} RegTopBits(bits: seq<bool>, v: Poly, k: nat)
    ensures Plus(Reg(bits + TopBits(v, k)), ShlN(v, k)) == TimesXn(k, Plus(Reg(bits), v))
    decreases k
  {
    hide Plus, TimesX, Shl, Top, Bit, Reg;
    if k == 0 {
      assert bits + TopBits(v, 0) == bits;
    } else {
      RegSnoc(bits, Top(v));
      FeedTopBit(Reg(bits), v);
      assert bits + TopBits(v, k) == (bits + [Top(v)]) + TopBits(Shl(v), k - 1);
      RegTopBits(bits + [Top(v)], Shl(v), k - 1);
      TimesXnSum(k - 1, 1, Plus(Reg(bits), v));
    }
  }

  lemma ShiftedOut(b: bv8)
    ensures ShlN(Poly(b), 8) == ZERO
  {
    assert ShlN(Poly(b), 4) == Poly(b << 1 << 1 << 1 << 1);
  }

  lemma RegByte(bits: seq<bool>, b: bv8)
    ensures Reg(bits + Bits(Poly(b))) == TimesXn(8, Plus(Reg(bits), Poly(b)))
  {
    hide Plus, TimesX, TopBits, ShlN, TimesXn, Reg;
    RegTopBits(bits, Poly(b), 8);
    ShiftedOut(b);
    PlusZero(Reg(bits + Bits(Poly(b))));
  }

  lemma TimesXnIsStepN(n: nat, c: bv8)
    ensures TimesXn(n, Poly(c)) == Poly(StepN(n, c))
  {
    hide Step;
  }

  /** The table-driven accumulator is the bit-serial register. */
  lemma {:induction false} CrcIsRegister(data: seq<bv8>)
    ensures Poly(Crc(data)) == Reg(AllBits(data))
  {
    hide TimesX, Step, Reg, Bits;
    if data == [] {
      assert Reg([]) == ZERO by { RegEmpty(); }
    } else {
      var front, last := data[..|data| - 1], data[|data| - 1];
      CrcIsRegister(front);
      RegByte(AllBits(front), last);
      TimesXnIsStepN(8, Crc(front) ^ last);
    }
  }

  lemma RegEmpty()
    ensures Reg([]) == ZERO
  {
  }

  // ----- Errors

  /** What a channel that flips the bits of `e` makes of `data`. */
  function Corrupt(data: seq<bv8>, e: seq<bv8>): seq<bv8>
    requires |data| == |e|
  {
    seq(|data|, i requires 0 <= i < |data| => data[i] ^ e[i])
  }

  /** The register of a whole message. */
  function Remainder(data: seq<bv8>): Poly {
    Reg(AllBits(data))
  }

  lemma RemainderSnoc(data: seq<bv8>)
    requires data != []
    ensures Remainder(data)
         == TimesXn(8, Plus(Remainder(data[..|data| - 1]), Poly(data[|data| - 1])))
  {
    hide Reg, Bits, Plus, TimesXn;
    RegByte(AllBits(data[..|data| - 1]), data[|data| - 1]);
  }

  lemma PlusInterchange(a: Poly, b: Poly, c: Poly, d: Poly)
    ensures Plus(Plus(a, b), Plus(c, d)) == Plus(Plus(a, c), Plus(b, d))
  {
    hide Plus;
    PlusAssoc(a, b, Plus(c, d));
    PlusAssoc(b, c, d);
    PlusComm(b, c);
    PlusAssoc(c, b, d);
    PlusAssoc(a, c, Plus(b, d));
  }

  lemma {:induction false} RemainderOfCorrupt(data: seq<bv8>, e: seq<bv8>)
    requires |data| == |e|
    ensures Remainder(Corrupt(data, e)) == Plus(Remainder(data), Remainder(e))
  {
    hide Remainder, Plus, TimesXn;
    if data == [] {
      assert data == e == Corrupt(data, e) == [];
      assert Remainder([]) == ZERO by { RemainderOfNothing(); }
      PlusZero(ZERO);
    } else {
      var n := |data| - 1;
      RemainderOfCorrupt(data[..n], e[..n]);
      assert Corrupt(data, e)[..n] == Corrupt(data[..n], e[..n]);
      RemainderSnoc(data);
      RemainderSnoc(e);
      RemainderSnoc(Corrupt(data, e));
      assert Poly(Corrupt(data, e)[n]) == Plus(Poly(data[n]), Poly(e[n])) by { PolySum(data[n], e[n]); }
      PlusInterchange(Remainder(data[..n]), Remainder(e[..n]), Poly(data[n]), Poly(e[n]));
      TimesXnPlus(8, Plus(Remainder(data[..n]), Poly(data[n])), Plus(Remainder(e[..n]), Poly(e[n])));
    }
  }

  lemma PolySum(a: bv8, b: bv8)
    ensures Poly(a ^ b) == Plus(Poly(a), Poly(b))
  {
  }

  lemma RemainderOfNothing()
    ensures Remainder([]) == ZERO
  {
  }

  /** A frame that passes the check still passes it after an error exactly when the error itself would. */
  lemma ErrorEscapes(frame: seq<bv8>, e: seq<bv8>)
    requires |frame| == |e| && Crc(frame) == 0
    ensures Crc(Corrupt(frame, e)) == 0 <==> Remainder(e) == ZERO
  {
    hide Reg, AllBits, Corrupt, Crc, Plus;
    RemainderOfCorrupt(frame, e);
    CrcIsRegister(frame);
    CrcIsRegister(Corrupt(frame, e));
    PlusZero(Remainder(e));
  }

  // ----- Parity: x + 1 divides the polynomial

  /** Whether an odd number of the bits are set. */
  predicate Odd(bits: seq<bool>) {
    if bits == [] then false else Odd(bits[..|bits| - 1]) != bits[|bits| - 1]
  }

  /** The parity of a register. */
  predicate OddPoly(a: Poly) {
    var p := a.c ^ (a.c >> 4);
    var q := p ^ (p >> 2);
    (q ^ (q >> 1)) & 1 != 0
  }

  lemma ParityStep(c: Poly, t: bool)
    ensures OddPoly(StepIn(c, t)) == (OddPoly(c) != t)
  {
    ParityBv(c.c);
  }

  lemma ParityBv(c: bv8)
    ensures OddPoly(Poly(Step(c))) == OddPoly(Poly(c))
    ensures OddPoly(Poly(Step(c ^ 0x80))) != OddPoly(Poly(c))
  {
  }

  lemma {:induction false} RegisterParity(bits: seq<bool>)
    ensures OddPoly(Reg(bits)) == Odd(bits)
  {
    hide OddPoly, StepIn;
    if bits == [] {
      assert !OddPoly(ZERO) by { ParityZero(); }
    } else {
      RegisterParity(bits[..|bits| - 1]);
      ParityStep(Reg(bits[..|bits| - 1]), bits[|bits| - 1]);
    }
  }

  lemma ParityZero()
    ensures !OddPoly(ZERO)
  {
  }

  /** Every error that flips an odd number of bits is noticed, in a frame of any length. */
  lemma OddErrorsAreDetected(frame: seq<bv8>, e: seq<bv8>)
    requires |frame| == |e| && Crc(frame) == 0
    requires Odd(AllBits(e))
    ensures Crc(Corrupt(frame, e)) != 0
  {
    hide Reg, AllBits, Corrupt, Crc, OddPoly;
    ErrorEscapes(frame, e);
    RegisterParity(AllBits(e));
    ParityZero();
  }

  // ----- The order of x is 127

  lemma EightMore(n: nat, v: bv8, w: bv8)
    requires TimesXn(n, X7) == Poly(v)
    requires TimesX8(v) == w
    ensures TimesXn(n + 8, X7) == Poly(w)
  {
    hide TimesX, TimesX8, StepN;
    TimesXnSum(8, n, X7);
    TimesXnIsStepN(8, v);
    TimesX8IsEightSteps(v);
  }

  lemma OneMore(n: nat, v: bv8, w: bv8)
    requires TimesXn(n, X7) == Poly(v)
    requires Step(v) == w
    ensures TimesXn(n + 1, X7) == Poly(w)
  {
  }

  lemma FullTurn()
    ensures TimesXn(127, X7) == X7
  {
    hide TimesXn;
    assert TimesXn(0, X7) == Poly(0x80) by { NoTurn(); }
    EightMore(0, 0x80, 0x89);
    EightMore(8, 0x89, 0xB6);
    EightMore(16, 0xB6, 0x0B);
    EightMore(24, 0x0B, 0x31);
    EightMore(32, 0x31, 0x97);
    EightMore(40, 0x97, 0xEC);
    EightMore(48, 0xEC, 0x8A);
    EightMore(56, 0x8A, 0xBF);
    EightMore(64, 0xBF, 0x34);
    EightMore(72, 0x34, 0x8C);
    EightMore(80, 0x8C, 0xAD);
    EightMore(88, 0xAD, 0x4A);
    EightMore(96, 0x4A, 0xF1);
    EightMore(104, 0xF1, 0xD9);
    EightMore(112, 0xD9, 0x01);
    OneMore(120, 0x01, 0x02);
    OneMore(121, 0x02, 0x04);
    OneMore(122, 0x04, 0x08);
    OneMore(123, 0x08, 0x10);
    OneMore(124, 0x10, 0x20);
    OneMore(125, 0x20, 0x40);
    OneMore(126, 0x40, 0x80);
  }

  lemma NoTurn()
    ensures TimesXn(0, X7) == X7
  {
  }

  lemma WholeTurns(q: nat)
    ensures TimesXn(127 * q, X7) == X7
  {
    hide TimesXn;
    if q == 0 {
      NoTurn();
    } else {
      WholeTurns(q - 1);
      FullTurn();
      TimesXnSum(127, 127 * (q - 1), X7);
    }
  }

  lemma PrimeOrder(r: nat)
    requires 1 < r < 127
    ensures 127 % r != 0
  {
    var q := 127 / r;
    if q * r == 127 {
      if r <= 11 { SmallDivisor(r, q); } else { SmallDivisor(q, r); }
    }
  }

  lemma SmallDivisor(a: nat, b: nat)
    requires 1 <= a <= 11 && a * b == 127
    ensures a == 1
  {
    if a == 2 {} else if a == 3 {} else if a == 4 {} else if a == 5 {} else if a == 6 {}
    else if a == 7 {} else if a == 8 {} else if a == 9 {} else if a == 10 {} else if a == 11 {}
  }

  /** The remainders of 127 by an exponent that fixes X7 fix it too, down to exponent 1, which does not. */
  lemma NoShorterTurn(r: nat)
    requires 0 < r < 127
    ensures TimesXn(r, X7) != X7
    decreases r
  {
    hide TimesXn;
    if r == 1 {
      OneStepMoves();
    } else if TimesXn(r, X7) == X7 {
      PrimeOrder(r);
      Repeat(127 / r, r);
      FullTurn();
      var m := 127 % r;
      TimesXnSum(m, 127 / r * r, X7);
      NoShorterTurn(m);
    }
  }

  lemma OneStepMoves()
    ensures TimesXn(1, X7) != X7
  {
  }

  lemma Repeat(q: nat, r: nat)
    requires TimesXn(r, X7) == X7
    ensures TimesXn(q * r, X7) == X7
  {
    hide TimesXn;
    if q == 0 {
      NoTurn();
    } else {
      Repeat(q - 1, r);
      assert q * r == r + (q - 1) * r;
      TimesXnSum(r, (q - 1) * r, X7);
    }
  }

  /** x^d is 1 modulo the polynomial exactly when 127 divides d. */
  lemma OrderOfX(d: nat)
    ensures TimesXn(d, X7) == X7 <==> d % 127 == 0
  {
    hide TimesXn;
    WholeTurns(d / 127);
    TimesXnSum(d % 127, 127 * (d / 127), X7);
    if d % 127 == 0 {
      NoTurn();
    } else {
      NoShorterTurn(d % 127);
    }
  }

  // ----- Two flipped bits

  lemma RegOfTrailingZeros(bits: seq<bool>, k: nat)
    requires k <= |bits|
    requires forall i :: k <= i < |bits| ==> !bits[i]
    ensures Reg(bits) == TimesXn(|bits| - k, Reg(bits[..k]))
  {
    hide TimesX, Plus;
    if |bits| == k {
      assert bits[..k] == bits;
    } else {
      var front := bits[..|bits| - 1];
      RegOfTrailingZeros(front, k);
      assert front[..k] == bits[..k];
      PlusZero(Reg(front));
    }
  }

  lemma RegOfZeros(bits: seq<bool>)
    requires forall i :: 0 <= i < |bits| ==> !bits[i]
    ensures Reg(bits) == ZERO
  {
    hide TimesX, Plus;
    RegOfTrailingZeros(bits, 0);
    TimesXnZero(|bits|, ZERO);
    assert bits[..0] == [];
  }

  lemma RegOfTwoBits(bits: seq<bool>, i: nat, j: nat)
    requires i < j < |bits|
    requires forall k :: 0 <= k < |bits| ==> (bits[k] <==> k == i || k == j)
    ensures Reg(bits) == TimesXn(|bits| - j, Plus(TimesXn(j - i, X7), X7))
  {
    hide TimesX, Plus, Reg, TimesXn;
    RegOfZeros(bits[..i]);
    assert bits[..i + 1] == bits[..i] + [true];
    RegSnoc(bits[..i], true);
    PlusZero(X7);
    RegOfTrailingZeros(bits[..j], i + 1);
    assert bits[..j][..i + 1] == bits[..i + 1];
    TimesXnOne(X7);
    TimesXnSum(j - i - 1, 1, X7);
    assert bits[..j + 1] == bits[..j] + [true];
    RegSnoc(bits[..j], true);
    var sum := Plus(TimesXn(j - i, X7), X7);
    TimesXnOne(sum);
    RegOfTrailingZeros(bits, j + 1);
    TimesXnSum(|bits| - j - 1, 1, sum);
  }

  lemma TimesXnOne(a: Poly)
    ensures TimesXn(1, a) == TimesX(a)
  {
    assert TimesXn(0, a) == a;
  }

  /** Two flips d bits apart go unnoticed exactly when 127 divides d, in a frame of any length. */
  lemma TwoFlipsEscape(frame: seq<bv8>, e: seq<bv8>, i: nat, j: nat)
    requires |frame| == |e| && Crc(frame) == 0
    requires i < j < 8 * |e|
    requires forall k :: 0 <= k < 8 * |e| ==> (AllBits(e)[k] <==> k == i || k == j)
    ensures Crc(Corrupt(frame, e)) == 0 <==> (j - i) % 127 == 0
  {
    hide TimesXn, Plus, Crc, Corrupt, Reg, AllBits;
    ErrorEscapes(frame, e);
    var bits := AllBits(e);
    RegOfTwoBits(bits, i, j);
    TimesXnZero(|bits| - j, Plus(TimesXn(j - i, X7), X7));
    OrderOfX(j - i);
    PlusZero(X7);
    if Plus(TimesXn(j - i, X7), X7) == ZERO {
      PlusCancel(TimesXn(j - i, X7), X7);
    }
  }

  // ----- Up to three flipped bits

  function Count(bits: seq<bool>): nat {
    if bits == [] then 0
    else Count(bits[..|bits| - 1]) + (if bits[|bits| - 1] then 1 else 0)
  }

  lemma CountParity(bits: seq<bool>)
    ensures Odd(bits) == (Count(bits) % 2 == 1)
  {
  }

  lemma {:induction false} CountZero(bits: seq<bool>)
    requires Count(bits) == 0
    ensures forall k :: 0 <= k < |bits| ==> !bits[k]
  {
    if bits != [] {
      CountZero(bits[..|bits| - 1]);
    }
  }

  lemma {:induction false} OneSetBit(bits: seq<bool>) returns (i: nat)
    requires Count(bits) == 1
    ensures i < |bits| && forall k :: 0 <= k < |bits| ==> (bits[k] <==> k == i)
  {
    var n := |bits| - 1;
    if bits[n] {
      CountZero(bits[..n]);
      i := n;
    } else {
      i := OneSetBit(bits[..n]);
    }
  }

  lemma {:induction false} TwoSetBits(bits: seq<bool>) returns (i: nat, j: nat)
    requires Count(bits) == 2
    ensures i < j < |bits|
    ensures forall k :: 0 <= k < |bits| ==> (bits[k] <==> k == i || k == j)
  {
    var n := |bits| - 1;
    if bits[n] {
      i := OneSetBit(bits[..n]);
      j := n;
    } else {
      i, j := TwoSetBits(bits[..n]);
    }
  }

  /** In a frame of at most 15 bytes any one, two or three flipped bits are noticed. */
  lemma UpToThreeFlipsAreDetected(frame: seq<bv8>, e: seq<bv8>)
    requires |frame| == |e| <= 15 && Crc(frame) == 0
    requires 1 <= Count(AllBits(e)) <= 3
    ensures Crc(Corrupt(frame, e)) != 0
  {
    hide Crc, Corrupt, AllBits, Count, Odd;
    CountParity(AllBits(e));
    if Count(AllBits(e)) == 2 {
      var i, j := TwoSetBits(AllBits(e));
      TwoFlipsEscape(frame, e, i, j);
    } else {
      OddErrorsAreDetected(frame, e);
    }
  }

  // ----- Division with remainder

  function XorBits(a: seq<bool>, b: seq<bool>): (r: seq<bool>)
    requires |a| == |b|
    ensures |r| == |a| && forall k :: 0 <= k < |r| ==> r[k] == (a[k] != b[k])
  {
    seq(|a|, k requires 0 <= k < |a| => a[k] != b[k])
  }

  function Zeros(n: nat): (r: seq<bool>)
    ensures |r| == n && forall k :: 0 <= k < n ==> !r[k]
  {
    seq(n, _ => false)
  }

  /** x^8 + x^2 + x + 1, times a one-bit factor. */
  function Generator(u: bool): (r: seq<bool>)
    ensures |r| == 9
  {
    [u, false, false, false, false, false, u, u, u]
  }

  /** The product of the polynomial q and the generator, by long multiplication. */
  function Product(q: seq<bool>): (r: seq<bool>)
    ensures |r| == |q| + 8
  {
    if q == [] then Zeros(8)
    else
      var n := |q| - 1;
      XorBits(Product(q[..n]) + [false], Zeros(n) + Generator(q[n]))
  }

  /** The quotient the register goes through: the bits it shifts out. */
  function Quotient(m: seq<bool>): (q: seq<bool>)
    ensures |q| == |m|
  {
    if m == [] then []
    else
      var n := |m| - 1;
      Quotient(m[..n]) + [Top(Reg(m[..n])) != m[n]]
  }

  /** What a set bit leaving the register adds at the bottom: x^2 + x + 1. */
  function Tail(u: bool): Poly {
    if u then Poly(0x07) else ZERO
  }

  lemma StepIsShiftAndTail(c: Poly, t: bool)
    ensures StepIn(c, t) == Plus(Shl(c), Tail(Top(c) != t))
  {
    hide Plus;
    TopAndRest(c);
    var top := Plus(Bit(Top(c)), Bit(t));
    assert top == Bit(Top(c) != t) by { BitSum(Top(c), t); }
    assert Plus(c, Bit(t)) == Plus(Rest(c), top) by {
      PlusComm(Bit(Top(c)), Rest(c));
      PlusAssoc(Rest(c), Bit(Top(c)), Bit(t));
    }
    TimesXPlus(Rest(c), top);
    TopLeaves(Top(c) != t);
  }

  lemma TopLeaves(u: bool)
    ensures TimesX(Bit(u)) == Tail(u)
  {
  }

  lemma {:induction false} TopBitsPlus(a: Poly, b: Poly, k: nat)
    ensures TopBits(Plus(a, b), k) == XorBits(TopBits(a, k), TopBits(b, k))
    decreases k
  {
    hide Plus, Top, Shl;
    if k > 0 {
      TopPlus(a, b);
      TopBitsPlus(Shl(a), Shl(b), k - 1);
    }
  }

  lemma TopPlus(a: Poly, b: Poly)
    ensures Top(Plus(a, b)) == (Top(a) != Top(b))
    ensures Shl(Plus(a, b)) == Plus(Shl(a), Shl(b))
  {
    var x, y := a.c, b.c;
    assert (x ^ y) & 0x80 == (x & 0x80) ^ (y & 0x80);
    assert (x ^ y) << 1 == (x << 1) ^ (y << 1);
  }

  lemma {:induction false} TopBitsLast(v: Poly, k: nat)
    ensures TopBits(v, k + 1) == TopBits(v, k) + [Top(ShlN(v, k))]
    decreases k
  {
    hide Top, Shl;
    if k > 0 {
      TopBitsLast(Shl(v), k - 1);
    }
  }

  lemma ShiftedBits(v: Poly)
    ensures [Top(v)] + Bits(Shl(v)) == Bits(v) + [false]
  {
    hide Top, Shl, TopBits, ShlN;
    TopBitsLast(v, 8);
    ShiftedOut(v.c);
    assert !Top(ZERO) by { TopOfZero(); }
    TopBitsFirst(v, 9);
  }

  lemma TopBitsFirst(v: Poly, k: nat)
    requires k > 0
    ensures TopBits(v, k) == [Top(v)] + TopBits(Shl(v), k - 1)
  {
  }

  lemma TopOfZero()
    ensures !Top(ZERO)
  {
  }

  lemma TailBits(u: bool)
    ensures Bits(Tail(u)) == [false, false, false, false, false, u, u, u]
  {
    var v := Tail(u);
    TopBitsFirst(v, 8);
    TopBitsFirst(Shl(v), 7);
    TopBitsFirst(ShlN(v, 2), 6);
    TopBitsFirst(ShlN(v, 3), 5);
    TopBitsFirst(ShlN(v, 4), 4);
    TopBitsFirst(ShlN(v, 5), 3);
    TopBitsFirst(ShlN(v, 6), 2);
    TopBitsFirst(ShlN(v, 7), 1);
  }

  /** One step of the register is one line of the long division. */
  lemma LineOfDivision(c: Poly, t: bool, u: bool)
    requires u == (Top(c) != t)
    ensures XorBits(Bits(c) + [false], Generator(u)) == [t] + Bits(StepIn(c, t))
  {
    hide Bits, StepIn, Top, Plus, Tail, Shl;
    StepIsShiftAndTail(c, t);
    BitsPlus(Shl(c), Tail(u));
    ShiftedBits(c);
    TailBits(u);
  }

  lemma BitsPlus(a: Poly, b: Poly)
    ensures Bits(Plus(a, b)) == XorBits(Bits(a), Bits(b))
  {
    hide Plus, TopBits;
    TopBitsPlus(a, b, 8);
  }

  /** A message followed by its checksum is a multiple of the generator. */
  lemma {:induction false} MessageIsProduct(m: seq<bool>)
    ensures Product(Quotient(m)) == m + Bits(Reg(m))
  {
    hide Generator, Bits, StepIn, Top, Reg, Product;
    if m == [] {
      NothingLeft();
    } else {
      var n := |m| - 1;
      var c, t, q := Reg(m[..n]), m[n], Quotient(m);
      var u := Top(c) != t;
      MessageIsProduct(m[..n]);
      assert q[..n] == Quotient(m[..n]) && q[n] == u;
      ProductLast(q);
      assert Reg(m) == StepIn(c, t) by { RegLast(m); }
      LineOfDivision(c, t, u);
      ProductLine(m[..n], Bits(c), u);
      assert m == m[..n] + [t];
    }
  }

  lemma NothingLeft()
    ensures Product([]) == Bits(Reg([])) == Zeros(8)
  {
  }

  lemma RegLast(m: seq<bool>)
    requires m != []
    ensures Reg(m) == StepIn(Reg(m[..|m| - 1]), m[|m| - 1])
  {
  }

  lemma ProductLast(q: seq<bool>)
    requires q != []
    ensures var n := |q| - 1; Product(q) == XorBits(Product(q[..n]) + [false], Zeros(n) + Generator(q[n]))
  {
  }

  lemma ProductLine(m: seq<bool>, c: seq<bool>, u: bool)
    requires |c| == 8
    ensures XorBits(m + c + [false], Zeros(|m|) + Generator(u)) == m + XorBits(c + [false], Generator(u))
  {
    hide Generator;
    var lhs, rhs := XorBits(m + c + [false], Zeros(|m|) + Generator(u)), m + XorBits(c + [false], Generator(u));
    forall k | 0 <= k < |lhs|
      ensures lhs[k] == rhs[k]
    {
      if k >= |m| {
        assert (m + c + [false])[k] == (c + [false])[k - |m|];
      }
    }
  }

  /** The quotient is determined by the message: no other multiple of the generator starts with it. */
  lemma {:induction false} QuotientIsUnique(q: seq<bool>, m: seq<bool>)
    requires |q| == |m| && Product(q)[..|q|] == m
    ensures q == Quotient(m)
  {
    hide Generator, Reg, Product, Top;
    if q != [] {
      var n := |q| - 1;
      ProductLast(q);
      GeneratorTop(q[n]);
      var front, line := Product(q[..n]) + [false], Zeros(n) + Generator(q[n]);
      forall k | 0 <= k < n
        ensures Product(q[..n])[k] == m[k]
      {
        assert Product(q)[k] == (front[k] != line[k]);
      }
      assert Product(q[..n])[..n] == m[..n];
      QuotientIsUnique(q[..n], m[..n]);
      MessageIsProduct(m[..n]);
      assert Product(q)[n] == (front[n] != line[n]);
      assert front[n] == Bits(Reg(m[..n]))[0];
    }
  }

  lemma GeneratorTop(u: bool)
    ensures Generator(u)[0] == u && Generator(u)[8] == u
  {
  }

  lemma {:induction false} BitsAreInjective(a: Poly, b: Poly)
    requires Bits(a) == Bits(b)
    ensures a == b
  {
    hide Plus, TopBits, Reg;
    assert XorBits(Bits(a), Bits(b)) == Zeros(8);
    BitsPlus(a, b);
    RegOfZeros(Bits(Plus(a, b)));
    RegByte([], Plus(a, b).c);
    assert [] + Bits(Plus(a, b)) == Bits(Plus(a, b));
    RegEmpty();
    PlusZero(Plus(a, b));
    TimesXnZero(8, Plus(a, b));
    PlusCancel(a, b);
  }

  /**
   The checksum is the remainder of the message times x^8: it is the one byte that makes the
   message followed by it a multiple of x^8 + x^2 + x + 1.
   */
  lemma CrcIsRemainder(data: seq<bv8>, c: bv8)
    ensures (exists q :: |q| == 8 * |data| && Product(q) == AllBits(data) + Bits(Poly(c)))
       <==> c == Crc(data)
  {
    hide Crc, AllBits, Product, Quotient, Reg, Bits;
    var m := AllBits(data);
    MessageIsProduct(m);
    CrcIsRegister(data);
    assert Product(Quotient(m)) == m + Bits(Poly(Crc(data)));
    forall q | |q| == |m| && Product(q) == m + Bits(Poly(c))
      ensures c == Crc(data)
    {
      QuotientIsUnique(q, m);
      assert (m + Bits(Poly(c)))[|m|..] == Bits(Poly(c));
      assert (m + Bits(Poly(Crc(data))))[|m|..] == Bits(Poly(Crc(data)));
      BitsAreInjective(Poly(c), Poly(Crc(data)));
    }
  }

  /** `crc_check` of a message with a trailing byte is 0 exactly when that byte is its checksum. */
  lemma CheckOfAppended(data: seq<bv8>, c: bv8)
    ensures Crc(data + [c]) == 0 <==> c == Crc(data)
  {
    hide AllBits, Reg, Plus, TimesXn, Crc;
    CrcIsRegister(data);
    CrcIsRegister(data + [c]);
    assert (data + [c])[..|data|] == data;
    RemainderSnoc(data + [c]);
    TimesXnZero(8, Plus(Remainder(data), Poly(c)));
    PlusZero(Poly(c));
    if Plus(Remainder(data), Poly(c)) == ZERO {
      PlusCancel(Remainder(data), Poly(c));
    }
  }

  /** The same on byte values. */
  lemma ChecksumOfAppended(data: seq<byte>, c: byte)
    ensures Checksum(data + [c]) == 0 <==> c == Checksum(data)
  {
    hide Crc, AsBits;
    assert AsBits(data + [c]) == AsBits(data) + [c as bv8] by { AsBitsSnoc(data, c); }
    CheckOfAppended(AsBits(data), c as bv8);
    ByteAndBits(c, Crc(AsBits(data)));
    ZeroByte(Crc(AsBits(data + [c])));
  }

  lemma AsBitsSnoc(data: seq<byte>, c: byte)
    ensures AsBits(data + [c]) == AsBits(data) + [c as bv8]
  {
  }

  lemma ZeroByte(v: bv8)
    ensures v as int == 0 <==> v == 0
  {
  }

  lemma ByteAndBits(c: byte, v: bv8)
    ensures c as bv8 == v <==> c == v as int
  {
    BitsOfByte(c);
  }

  lemma BitsOfByte(c: byte)
    ensures (c as bv8) as int == c
  {
    assert c % 256 == c;
  }

  // ----- Bursts

  lemma {:induction false} ProductOfZeros(q: seq<bool>)
    requires forall k :: 0 <= k < |q| ==> !q[k]
    ensures Product(q) == Zeros(|q| + 8)
  {
    if q != [] {
      ProductOfZeros(q[..|q| - 1]);
    }
  }

  /** The first term of a product is the first term of the quotient, eight places up. */
  lemma {:induction false} FirstTerm(q: seq<bool>, p: nat)
    requires p < |q| && q[p] && forall k :: 0 <= k < p ==> !q[k]
    ensures Product(q)[p]
  {
    hide Generator, Product;
    var n := |q| - 1;
    ProductLast(q);
    GeneratorTop(q[n]);
    var front, line := Product(q[..n]) + [false], Zeros(n) + Generator(q[n]);
    assert Product(q)[p] == (front[p] != line[p]);
    if p < n {
      FirstTerm(q[..n], p);
    } else {
      ProductOfZeros(q[..n]);
    }
  }

  /** The last term of a product is the last term of the quotient. */
  lemma {:induction false} LastTerm(q: seq<bool>, p: nat)
    requires p < |q| && q[p] && forall k :: p < k < |q| ==> !q[k]
    ensures Product(q)[p + 8]
  {
    hide Product;
    var n := |q| - 1;
    ProductLast(q);
    var front, line := Product(q[..n]) + [false], Zeros(n) + Generator(q[n]);
    assert Product(q)[p + 8] == (front[p + 8] != line[p + 8]);
    assert p < n ==> line[p + 8] == (p + 8 >= n && Generator(false)[p + 8 - n]);
    if p < n {
      LastTerm(q[..n], p);
    }
  }

  lemma FirstSet(bits: seq<bool>, i: nat) returns (p: nat)
    requires i < |bits| && bits[i]
    ensures p <= i && bits[p] && forall k :: 0 <= k < p ==> !bits[k]
  {
    p := 0;
    while !bits[p]
      invariant p <= i && forall k :: 0 <= k < p ==> !bits[k]
      decreases i - p
    {
      p := p + 1;
    }
  }

  lemma LastSet(bits: seq<bool>, i: nat) returns (p: nat)
    requires i < |bits| && bits[i]
    ensures i <= p < |bits| && bits[p] && forall k :: p < k < |bits| ==> !bits[k]
  {
    p := |bits| - 1;
    while !bits[p]
      invariant i <= p < |bits| && forall k :: p < k < |bits| ==> !bits[k]
      decreases p
    {
      p := p - 1;
    }
  }

  /** A non-zero multiple of the generator has two terms at least eight places apart. */
  lemma EscapingErrorIsWide(bits: seq<bool>, i: nat) returns (p: nat, r: nat)
    requires i < |bits| && bits[i] && Reg(bits) == ZERO
    ensures p + 8 <= r < |bits| && bits[p] && bits[r]
  {
    hide Product, Quotient, Reg, Bits;
    var q := Quotient(bits);
    MessageIsProduct(bits);
    assert Bits(ZERO) == Zeros(8) by { NothingLeft(); RegEmpty(); }
    assert Product(q)[i];
    if forall k :: 0 <= k < |q| ==> !q[k] {
      ProductOfZeros(q);
      assert false;
    }
    var s :| 0 <= s < |q| && q[s];
    p := FirstSet(q, s);
    FirstTerm(q, p);
    var last := LastSet(q, s);
    LastTerm(q, last);
    r := last + 8;
  }

  /** Any error confined to eight consecutive bits is noticed, in a frame of any length. */
  lemma BurstsAreDetected(frame: seq<bv8>, e: seq<bv8>, i: nat)
    requires |frame| == |e| && Crc(frame) == 0
    requires i < 8 * |e| && AllBits(e)[i]
    requires forall j, k :: 0 <= j < k < 8 * |e| && AllBits(e)[j] && AllBits(e)[k] ==> k - j < 8
    ensures Crc(Corrupt(frame, e)) != 0
  {
    hide Crc, Corrupt, AllBits, Reg;
    ErrorEscapes(frame, e);
    if Remainder(e) == ZERO {
      var p, r := EscapingErrorIsWide(AllBits(e), i);
    }
  }
}
