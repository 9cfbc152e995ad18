/** What the checksum is, said without the register: the remainder of the message, as a
    polynomial over GF(2), modulo the generator of section 8 of RFC 1952. */
module CrcPolynomial {
  import opened CodecFooter

  /** A polynomial over GF(2): the exponents whose coefficient is 1. */
  type Poly = set<nat>

  const GENERATOR: Poly := {32, 26, 23, 22, 16, 12, 11, 10, 8, 7, 5, 4, 2, 1, 0}

  function Plus(a: Poly, b: Poly): Poly {
    (a - b) + (b - a)
  }

  /** The polynomial times `x^k`. */
  function TimesX(a: Poly, k: nat): Poly {
    set e | e in a :: e + k
  }

  /** The generator times the sum of the given powers of `x`. */
  function Multiple(powers: seq<nat>): Poly {
    if powers == [] then {} else Plus(TimesX(GENERATOR, powers[0]), Multiple(powers[1..]))
  }

  /** `r` is what `a` leaves modulo the generator: a multiple apart, and of degree below 32. */
  ghost predicate IsRemainder(a: Poly, r: Poly) {
    (forall e :: e in r ==> e < 32) && Congruent(a, r)
  }

  ghost predicate Congruent(a: Poly, b: Poly) {
    exists powers :: a == Plus(b, Multiple(powers))
  }

  // Sums

  lemma InPlus(a: Poly, b: Poly)
    ensures forall e :: e in Plus(a, b) <==> ((e in a) != (e in b))
  {
  }

  lemma PlusAssociative(a: Poly, b: Poly, c: Poly)
    ensures Plus(Plus(a, b), c) == Plus(a, Plus(b, c))
  {
  }

  lemma PlusCommutes(a: Poly, b: Poly)
    ensures Plus(a, b) == Plus(b, a)
  {
  }

  lemma PlusNothing(a: Poly)
    ensures Plus(a, {}) == a && Plus({}, a) == a && Plus(a, a) == {}
  {
  }

  lemma InTimesX(a: Poly, k: nat)
    ensures forall e: nat :: e in TimesX(a, k) <==> (e >= k && e - k in a)
  {
    forall e: nat | e >= k && e - k in a ensures e in TimesX(a, k) {
      assert (e - k) + k == e;
    }
  }

  lemma TimesXPlus(a: Poly, b: Poly, k: nat)
    ensures TimesX(Plus(a, b), k) == Plus(TimesX(a, k), TimesX(b, k))
  {
    hide TimesX, Plus;
    InTimesX(Plus(a, b), k);
    InTimesX(a, k);
    InTimesX(b, k);
    InPlus(a, b);
    InPlus(TimesX(a, k), TimesX(b, k));
  }

  lemma TimesXTwice(a: Poly, j: nat, k: nat)
    ensures TimesX(TimesX(a, j), k) == TimesX(a, j + k)
  {
    hide TimesX;
    InTimesX(a, j);
    InTimesX(TimesX(a, j), k);
    InTimesX(a, j + k);
  }

  // Multiples

  lemma {:induction false} MultipleConcat(p: seq<nat>, q: seq<nat>)
    ensures Multiple(p + q) == Plus(Multiple(p), Multiple(q))
  {
    hide Plus, TimesX;
    if p == [] {
      assert p + q == q;
      PlusNothing(Multiple(q));
    } else {
      assert (p + q)[1..] == p[1..] + q;
      MultipleConcat(p[1..], q);
      PlusAssociative(TimesX(GENERATOR, p[0]), Multiple(p[1..]), Multiple(q));
    }
  }

  lemma {:induction false} MultipleTimesX(p: seq<nat>, k: nat) returns (q: seq<nat>)
    ensures Multiple(q) == TimesX(Multiple(p), k)
  {
    if p == [] {
      q := [];
    } else {
      hide Plus, TimesX;
      var rest := MultipleTimesX(p[1..], k);
      q := [p[0] + k] + rest;
      TimesXTwice(GENERATOR, p[0], k);
      TimesXPlus(TimesX(GENERATOR, p[0]), Multiple(p[1..]), k);
    }
  }

  lemma Same(a: Poly)
    ensures Congruent(a, a)
  {
    PlusNothing(a);
    assert a == Plus(a, Multiple([]));
  }

  lemma Transitive(a: Poly, b: Poly, c: Poly)
    requires Congruent(a, b) && Congruent(b, c)
    ensures Congruent(a, c)
  {
    hide Plus, Multiple;
    var p :| a == Plus(b, Multiple(p));
    var q :| b == Plus(c, Multiple(q));
    PlusAssociative(c, Multiple(q), Multiple(p));
    MultipleConcat(q, p);
    assert a == Plus(c, Multiple(q + p));
  }

  lemma Scaled(a: Poly, b: Poly, k: nat)
    requires Congruent(a, b)
    ensures Congruent(TimesX(a, k), TimesX(b, k))
  {
    hide Plus, Multiple, TimesX;
    var p :| a == Plus(b, Multiple(p));
    TimesXPlus(b, Multiple(p), k);
    var q := MultipleTimesX(p, k);
    assert TimesX(a, k) == Plus(TimesX(b, k), Multiple(q));
  }

  lemma Added(a: Poly, b: Poly, c: Poly)
    requires Congruent(a, b)
    ensures Congruent(Plus(a, c), Plus(b, c))
  {
    hide Plus, Multiple;
    var p :| a == Plus(b, Multiple(p));
    PlusAssociative(b, Multiple(p), c);
    PlusCommutes(Multiple(p), c);
    PlusAssociative(b, c, Multiple(p));
    assert Plus(a, c) == Plus(Plus(b, c), Multiple(p));
  }

  // Remainders are unique

  /** The sum of the multiples of the powers below `n` that are in `s`. */
  function Combined(s: Poly, n: nat): Poly {
    if n == 0 then {}
    else Plus(if n - 1 in s then TimesX(GENERATOR, n - 1) else {}, Combined(s, n - 1))
  }

  function Parity(powers: seq<nat>): Poly {
    if powers == [] then {} else Plus({powers[0]}, Parity(powers[1..]))
  }

  lemma {:induction false} CombinedPlusOne(s: Poly, q: nat, n: nat)
    ensures q < n ==> Combined(Plus({q}, s), n) == Plus(TimesX(GENERATOR, q), Combined(s, n))
    ensures q >= n ==> Combined(Plus({q}, s), n) == Combined(s, n)
  {
    hide TimesX;
    if n > 0 {
      CombinedPlusOne(s, q, n - 1);
      InPlus({q}, s);
      hide Plus;
      var g, rest := TimesX(GENERATOR, n - 1), Combined(s, n - 1);
      if q < n - 1 {
        var a, t := if n - 1 in s then g else {}, TimesX(GENERATOR, q);
        PlusAssociative(a, t, rest);
        PlusCommutes(a, t);
        PlusAssociative(t, a, rest);
      } else if q == n - 1 {
        PlusAssociative(g, g, rest);
        PlusNothing(g);
        PlusNothing(rest);
      }
    }
  }

  lemma {:induction false} MultipleIsCombined(powers: seq<nat>, n: nat)
    requires forall i :: 0 <= i < |powers| ==> powers[i] < n
    ensures Multiple(powers) == Combined(Parity(powers), n)
  {
    hide Plus, TimesX;
    if powers == [] {
      NothingCombined(n);
    } else {
      MultipleIsCombined(powers[1..], n);
      CombinedPlusOne(Parity(powers[1..]), powers[0], n);
    }
  }

  lemma {:induction false} NothingCombined(n: nat)
    ensures Combined({}, n) == {}
  {
    if n > 0 {
      NothingCombined(n - 1);
    }
  }

  lemma {:induction false} CombinedDegree(s: Poly, n: nat)
    ensures forall e :: e in Combined(s, n) ==> e < 32 + n
    decreases n
  {
    if n > 0 {
      CombinedDegree(s, n - 1);
      InTimesX(GENERATOR, n - 1);
    }
  }

  /** A multiple of degree below 32 is nothing. */
  lemma {:induction false} SmallMultiple(s: Poly, n: nat)
    requires forall e :: e in Combined(s, n) ==> e < 32
    ensures Combined(s, n) == {}
  {
    if n > 0 {
      if n - 1 in s {
        CombinedDegree(s, n - 1);
        InTimesX(GENERATOR, n - 1);
        assert 32 + (n - 1) in Combined(s, n);
      } else {
        PlusNothing(Combined(s, n - 1));
        assert Combined(s, n) == Combined(s, n - 1);
        SmallMultiple(s, n - 1);
      }
    }
  }

  function Above(powers: seq<nat>): (n: nat)
    ensures forall i :: 0 <= i < |powers| ==> powers[i] < n
  {
    if powers == [] then 0
    else
      var m := Above(powers[1..]);
      if powers[0] < m then m else powers[0] + 1
  }

  /** There is one remainder. */
  lemma RemainderUnique(a: Poly, r: Poly, t: Poly)
    requires IsRemainder(a, r) && IsRemainder(a, t)
    ensures r == t
  {
    hide Multiple;
    var p :| a == Plus(r, Multiple(p));
    var q :| a == Plus(t, Multiple(q));
    MultipleConcat(p, q);
    var both, n := Multiple(p + q), Above(p + q);
    MultipleIsCombined(p + q, n);
    assert both == Plus(r, t);
    SmallMultiple(Parity(p + q), n);
    assert both == {};
  }

  // The register as a polynomial

  /** The low `n` bits of a register, the lowest standing for the highest power. */
  function Coefficients(r: bv32, n: nat): Poly {
    if n == 0 then {} else (if Odd(r) then {n - 1} else {}) + Coefficients(Half(r), n - 1)
  }

  lemma {:induction false} CoefficientsBelow(r: bv32, n: nat)
    ensures forall e :: e in Coefficients(r, n) ==> e < n
    decreases n
  {
    hide Odd, Half;
    if n > 0 {
      CoefficientsBelow(Half(r), n - 1);
    }
  }

  lemma {:induction false} CoefficientsXor(a: bv32, b: bv32, n: nat)
    ensures Coefficients(Xor(a, b), n) == Plus(Coefficients(a, n), Coefficients(b, n))
    decreases n
  {
    hide Odd, Half, Xor;
    if n > 0 {
      XorParts(a, b);
      CoefficientsXor(Half(a), Half(b), n - 1);
      CoefficientsBelow(Half(a), n - 1);
      CoefficientsBelow(Half(b), n - 1);
    }
  }

  function Halved(r: bv32, n: nat): bv32 {
    if n == 0 then r else Halved(Half(r), n - 1)
  }

  lemma TimesXCons(b: bool, m: nat, rest: Poly, n: nat)
    ensures TimesX((if b then {m} else {}) + rest, n) == (if b then {m + n} else {}) + TimesX(rest, n)
  {
    hide TimesX;
    InTimesX((if b then {m} else {}) + rest, n);
    InTimesX(rest, n);
  }

  /** The first `m` bits, then the next `n`. */
  lemma {:induction false} CoefficientsSplit(r: bv32, m: nat, n: nat)
    ensures Coefficients(r, m + n) == TimesX(Coefficients(r, m), n) + Coefficients(Halved(r, m), n)
    decreases m
  {
    hide Odd, Half, TimesX;
    if m > 0 {
      CoefficientsSplit(Half(r), m - 1, n);
      TimesXCons(Odd(r), m - 1, Coefficients(Half(r), m - 1), n);
      assert Halved(r, m) == Halved(Half(r), m - 1);
    } else {
      NothingTimesX(n);
    }
  }

  lemma NothingTimesX(k: nat)
    ensures TimesX({}, k) == {}
  {
  }

  lemma {:induction false} NoCoefficients(n: nat)
    ensures Coefficients(0, n) == {}
  {
    if n > 0 {
      assert !Odd(0) && Half(0) == 0;
      NoCoefficients(n - 1);
    }
  }

  lemma {:induction false} HalvedAdd(r: bv32, m: nat, n: nat)
    ensures Halved(r, m + n) == Halved(Halved(r, m), n)
    decreases m
  {
    hide Half;
    if m > 0 {
      HalvedAdd(Half(r), m - 1, n);
    }
  }

  function Nibble(r: bv32): bv32 { r >> 4 }

  function Byte(r: bv32): bv32 { r >> 8 }

  lemma FourHalves(r: bv32)
    ensures Half(Half(Half(Half(r)))) == Nibble(r)
  {
  }

  lemma TwoNibbles(r: bv32)
    ensures Nibble(Nibble(r)) == Byte(r)
  {
  }

  lemma FourBytesGone(r: bv32)
    ensures Byte(Byte(Byte(Byte(r)))) == 0
  {
  }

  lemma HalvedFour(r: bv32)
    ensures Halved(r, 4) == Nibble(r)
  {
    FourHalves(r);
    hide Half, Nibble;
    var a := Half(r);
    var b := Half(a);
    var c := Half(b);
    assert Halved(c, 1) == Half(c);
    assert Halved(b, 2) == Half(c);
    assert Halved(a, 3) == Half(c);
  }

  lemma HalvedEight(r: bv32)
    ensures Halved(r, 8) == Byte(r)
  {
    hide Halved, Nibble, Byte;
    HalvedAdd(r, 4, 4);
    HalvedFour(r);
    HalvedFour(Nibble(r));
    TwoNibbles(r);
  }

  lemma HalvedAll(r: bv32)
    ensures Halved(r, 32) == 0
  {
    hide Halved, Byte;
    HalvedAdd(r, 8, 24);
    HalvedAdd(Byte(r), 8, 16);
    HalvedAdd(Byte(Byte(r)), 8, 8);
    HalvedEight(r);
    HalvedEight(Byte(r));
    HalvedEight(Byte(Byte(r)));
    HalvedEight(Byte(Byte(Byte(r))));
    FourBytesGone(r);
  }

  // One step multiplies by x

  /** The 32 coefficients of a register. */
  function Register(r: bv32): Poly {
    Coefficients(r, 32)
  }

  /** The powers of the lowest four bits. */
  function FourBits(r: bv32, n: nat): Poly {
    (if Odd(r) then {n + 3} else {}) + (if Odd(Half(r)) then {n + 2} else {})
    + (if Odd(Half(Half(r))) then {n + 1} else {}) + (if Odd(Half(Half(Half(r)))) then {n} else {})
  }

  lemma FourCoefficients(r: bv32, n: nat)
    ensures Coefficients(r, n + 4) == FourBits(r, n) + Coefficients(Nibble(r), n)
  {
    FourHalves(r);
    hide Odd, Half, Nibble, Coefficients;
    var b := Half(r);
    var c := Half(b);
    var d := Half(c);
    OneCoefficient(d, n);
    OneCoefficient(c, n + 1);
    OneCoefficient(b, n + 2);
    OneCoefficient(r, n + 3);
  }

  lemma OneCoefficient(r: bv32, n: nat)
    ensures Coefficients(r, n + 1) == (if Odd(r) then {n} else {}) + Coefficients(Half(r), n)
  {
    hide Odd, Half;
  }

  lemma ConstantLow()
    ensures Nibble(POLYNOMIAL) == 0xedb_8832 && Nibble(0xedb_8832) == 0xed_b883
    ensures Nibble(0xed_b883) == 0xe_db88 && Nibble(0xe_db88) == 0xedb8
    ensures FourBits(POLYNOMIAL, 28) == {} && FourBits(0xedb_8832, 24) == {26}
    ensures FourBits(0xed_b883, 20) == {23, 22} && FourBits(0xe_db88, 16) == {16}
  {
  }

  lemma ConstantHigh()
    ensures Nibble(0xedb8) == 0xedb && Nibble(0xedb) == 0xed && Nibble(0xed) == 0xe
    ensures FourBits(0xedb8, 12) == {12} && FourBits(0xedb, 8) == {11, 10, 8}
    ensures FourBits(0xed, 4) == {7, 5, 4} && FourBits(0xe, 0) == {2, 1, 0}
  {
  }

  /** The register's constant is the generator without its highest power. */
  lemma ConstantIsGenerator()
    ensures Register(POLYNOMIAL) == GENERATOR - {32}
  {
    hide Coefficients, FourBits, Nibble;
    ConstantLow();
    FourCoefficients(POLYNOMIAL, 28);
    FourCoefficients(0xedb_8832, 24);
    FourCoefficients(0xed_b883, 20);
    FourCoefficients(0xe_db88, 16);
    ConstantHighCoefficients();
  }

  lemma ConstantHighCoefficients()
    ensures Coefficients(0xedb8, 16) == {12, 11, 10, 8, 7, 5, 4, 2, 1, 0}
  {
    hide Coefficients, FourBits, Nibble;
    ConstantHigh();
    FourCoefficients(0xedb8, 12);
    FourCoefficients(0xedb, 8);
    FourCoefficients(0xed, 4);
    FourCoefficients(0xe, 0);
    NoneLeft(Nibble(0xe));
  }

  lemma NoneLeft(r: bv32)
    ensures Coefficients(r, 0) == {}
  {
  }

  /** Shifting the register down loses no coefficient but the highest. */
  lemma HalfTimesX(r: bv32)
    ensures TimesX(Register(r), 1) == (if Odd(r) then {32} else {}) + Register(Half(r))
  {
    hide Odd, Half, TimesX, Coefficients;
    RegisterUnfolds(r);
    TimesXCons(Odd(r), 31, Coefficients(Half(r), 31), 1);
    CoefficientsSplit(Half(r), 31, 1);
    HalvedAll(r);
    assert Halved(r, 32) == Halved(Half(r), 31);
    NoCoefficients(1);
  }

  lemma RegisterUnfolds(r: bv32)
    ensures Register(r) == (if Odd(r) then {31} else {}) + Coefficients(Half(r), 31)
  {
    hide Odd, Half;
  }

  lemma BitTimesX(r: bv32)
    ensures TimesX(Register(r), 1) == Plus(Register(CrcBit(r)), if Odd(r) then GENERATOR else {})
  {
    hide Odd, Half, TimesX, Coefficients, CrcBit, Xor;
    HalfTimesX(r);
    CrcBitCases(r);
    var h := Register(Half(r));
    CoefficientsBelow(Half(r), 32);
    if Odd(r) {
      CoefficientsXor(Half(r), POLYNOMIAL, 32);
      ConstantIsGenerator();
      TopCancels(h);
    } else {
      PlusNothing(h);
    }
  }

  lemma TopCancels(h: Poly)
    requires forall e :: e in h ==> e < 32
    ensures {32} + h == Plus(Plus(h, GENERATOR - {32}), GENERATOR)
  {
    var g := GENERATOR;
    assert 32 in g;
    hide *;
    InPlus(h, g - {32});
    InPlus(Plus(h, g - {32}), g);
  }

  lemma BitStep(r: bv32)
    ensures Congruent(TimesX(Register(r), 1), Register(CrcBit(r)))
  {
    hide Odd, TimesX, Coefficients, CrcBit, Plus;
    BitTimesX(r);
    if Odd(r) {
      OneMultiple();
      assert TimesX(Register(r), 1) == Plus(Register(CrcBit(r)), Multiple([0]));
    } else {
      assert TimesX(Register(r), 1) == Plus(Register(CrcBit(r)), Multiple([]));
    }
  }

  lemma OneMultiple()
    ensures Multiple([0]) == GENERATOR
  {
    hide Plus;
    assert [0][1..] == [];
    assert TimesX(GENERATOR, 0) == GENERATOR;
    PlusNothing(GENERATOR);
  }

  // Bytes and messages

  lemma {:induction false} BitSteps(r: bv32, n: nat)
    ensures Congruent(TimesX(Register(r), n), Register(CrcBits(r, n)))
  {
    hide TimesX, Register, CrcBit, Congruent;
    if n == 0 {
      TimesNothing(Register(r));
      Same(Register(r));
    } else {
      var before := CrcBits(r, n - 1);
      BitSteps(r, n - 1);
      Scaled(TimesX(Register(r), n - 1), Register(before), 1);
      TimesXTwice(Register(r), n - 1, 1);
      BitStep(before);
      Transitive(TimesX(Register(r), n), TimesX(Register(before), 1), Register(CrcBits(r, n)));
    }
  }

  lemma TimesNothing(a: Poly)
    ensures TimesX(a, 0) == a
  {
    InTimesX(a, 0);
  }

  /** The bits of a byte, the lowest standing for the highest power. */
  function Octet(b: byte): Poly {
    Coefficients(B0(b), 8)
  }

  /** The message: its bits in the order they are sent, lowest of each byte first. */
  function Message(input: seq<byte>): Poly {
    if input == [] then {} else Plus(TimesX(Octet(input[0]), 8 * (|input| - 1)), Message(input[1..]))
  }

  lemma ByteBits(b: byte)
    ensures Odd(B0(b)) == (b & 0x01 != 0) && Odd(Half(B0(b))) == (b & 0x02 != 0)
    ensures Odd(Half(Half(B0(b)))) == (b & 0x04 != 0) && Odd(Half(Half(Half(B0(b))))) == (b & 0x08 != 0)
    ensures var h := Nibble(B0(b));
      && Odd(h) == (b & 0x10 != 0) && Odd(Half(h)) == (b & 0x20 != 0)
      && Odd(Half(Half(h))) == (b & 0x40 != 0) && Odd(Half(Half(Half(h)))) == (b & 0x80 != 0)
  {
  }

  lemma InFourBits(r: bv32, n: nat)
    ensures forall e :: e in FourBits(r, n) ==> n <= e < n + 4
    ensures n + 3 in FourBits(r, n) <==> Odd(r)
    ensures n + 2 in FourBits(r, n) <==> Odd(Half(r))
    ensures n + 1 in FourBits(r, n) <==> Odd(Half(Half(r)))
    ensures n in FourBits(r, n) <==> Odd(Half(Half(Half(r))))
  {
    hide Odd, Half;
  }

  /** An octet, mask by mask. */
  lemma OctetIs(b: byte)
    ensures forall e :: e in Octet(b) ==> e < 8
    ensures (7 in Octet(b) <==> b & 0x01 != 0) && (6 in Octet(b) <==> b & 0x02 != 0)
    ensures (5 in Octet(b) <==> b & 0x04 != 0) && (4 in Octet(b) <==> b & 0x08 != 0)
    ensures (3 in Octet(b) <==> b & 0x10 != 0) && (2 in Octet(b) <==> b & 0x20 != 0)
    ensures (1 in Octet(b) <==> b & 0x40 != 0) && (0 in Octet(b) <==> b & 0x80 != 0)
  {
    ByteBits(b);
    hide Odd, Half, Nibble, B0, Coefficients, FourBits;
    var low, high := B0(b), Nibble(B0(b));
    FourCoefficients(low, 4);
    FourCoefficients(high, 0);
    NoneLeft(Nibble(high));
    InFourBits(low, 4);
    InFourBits(high, 0);
  }

  lemma OctetAtTop(b: byte)
    ensures Register(B0(b)) == TimesX(Octet(b), 24)
  {
    ByteGone(b);
    hide TimesX, Coefficients, Halved, B0, Byte;
    CoefficientsSplit(B0(b), 8, 24);
    HalvedEight(B0(b));
    NoCoefficients(24);
  }

  lemma ByteGone(b: byte)
    ensures Byte(B0(b)) == 0
  {
  }

  lemma ByteStep(crc: bv32, b: byte)
    ensures Congruent(Plus(TimesX(Register(crc), 8), TimesX(Octet(b), 32)), Register(CrcByte(crc, b)))
  {
    hide TimesX, Coefficients, Register, Plus, CrcByte, Crc8, Xor, B0, Octet, Congruent, CrcBits;
    CrcByteIs(crc, b);
    var mixed := Xor(crc, B0(b));
    EightBits(mixed);
    BitSteps(mixed, 8);
    MixedRegister(crc, b);
    TimesXPlus(Register(crc), TimesX(Octet(b), 24), 8);
    TimesXTwice(Octet(b), 24, 8);
  }

  lemma MixedRegister(crc: bv32, b: byte)
    ensures Register(Xor(crc, B0(b))) == Plus(Register(crc), TimesX(Octet(b), 24))
  {
    hide TimesX, Coefficients, Plus, Xor, B0, Octet;
    CoefficientsXor(crc, B0(b), 32);
    OctetAtTop(b);
  }

  /** After a message the register is congruent to what it held, moved up, plus the message. */
  lemma {:induction false} RegisterAfter(crc: bv32, input: seq<byte>)
    ensures Congruent(Plus(TimesX(Register(crc), 8 * |input|), TimesX(Message(input), 32)),
                      Register(CrcBytes(crc, input)))
    decreases |input|
  {
    hide TimesX, Register, Plus, CrcByte, Octet, Congruent;
    if input == [] {
      TimesNothing(Register(crc));
      NothingTimesX(32);
      PlusNothing(Register(crc));
      Same(Register(crc));
    } else {
      var b, rest, n := input[0], input[1..], 8 * (|input| - 1);
      var next, m := CrcByte(crc, b), TimesX(Message(rest), 32);
      RegisterAfter(next, rest);
      ByteStep(crc, b);
      var before := Plus(TimesX(Register(crc), 8), TimesX(Octet(b), 32));
      Scaled(before, Register(next), n);
      Added(TimesX(before, n), TimesX(Register(next), n), m);
      Regrouped(Register(crc), Octet(b), Message(rest), n);
      Transitive(Plus(TimesX(before, n), m), Plus(TimesX(Register(next), n), m), Register(CrcBytes(next, rest)));
    }
  }

  lemma Regrouped(r: Poly, o: Poly, m: Poly, n: nat)
    ensures Plus(TimesX(r, n + 8), TimesX(Plus(TimesX(o, n), m), 32))
         == Plus(TimesX(Plus(TimesX(r, 8), TimesX(o, 32)), n), TimesX(m, 32))
  {
    hide TimesX, Plus;
    TimesXPlus(TimesX(o, n), m, 32);
    TimesXPlus(TimesX(r, 8), TimesX(o, 32), n);
    TimesXTwice(o, n, 32);
    TimesXTwice(o, 32, n);
    TimesXTwice(r, 8, n);
    PlusAssociative(TimesX(r, n + 8), TimesX(o, n + 32), TimesX(m, 32));
  }

  // The checksum

  /** `1 + x + ... + x^(n - 1)` */
  function OnesBelow(n: nat): (r: Poly)
    ensures forall e: nat :: e in r <==> e < n
  {
    if n == 0 then {} else {n - 1} + OnesBelow(n - 1)
  }

  function Ones(): Poly {
    OnesBelow(32)
  }

  predicate Full(r: bv32) {
    r & 0xf == 0xf
  }

  lemma AllBits()
    ensures Nibble(0xffff_ffff) == 0xfff_ffff && Nibble(0xfff_ffff) == 0xff_ffff && Nibble(0xff_ffff) == 0xf_ffff
    ensures Nibble(0xf_ffff) == 0xffff && Nibble(0xffff) == 0xfff && Nibble(0xfff) == 0xff && Nibble(0xff) == 0xf
    ensures Full(0xffff_ffff) && Full(0xfff_ffff) && Full(0xff_ffff) && Full(0xf_ffff)
    ensures Full(0xffff) && Full(0xfff) && Full(0xff) && Full(0xf)
  {
  }

  lemma NibbleFull(r: bv32, n: nat)
    requires Full(r)
    ensures FourBits(r, n) == {n + 3, n + 2, n + 1, n}
  {
    LowBits(r);
    hide Odd, Half;
  }

  lemma LowBits(r: bv32)
    requires Full(r)
    ensures Odd(r) && Odd(Half(r)) && Odd(Half(Half(r))) && Odd(Half(Half(Half(r))))
  {
  }

  lemma OnesAre(r: bv32, n: nat)
    requires Full(r) && Coefficients(Nibble(r), n) == OnesBelow(n)
    ensures Coefficients(r, n + 4) == OnesBelow(n + 4)
  {
    hide Coefficients, FourBits, Nibble, OnesBelow, Full;
    FourCoefficients(r, n);
    NibbleFull(r, n);
  }

  lemma StartIsOnes()
    ensures Register(0xffff_ffff) == Ones()
  {
    hide Coefficients, Nibble, OnesBelow, Full;
    AllBits();
    LowOnes();
    OnesAre(0xf_ffff, 16);
    OnesAre(0xff_ffff, 20);
    OnesAre(0xfff_ffff, 24);
    OnesAre(0xffff_ffff, 28);
  }

  lemma LowOnes()
    ensures Coefficients(0xffff, 16) == OnesBelow(16)
  {
    NoneLeft(Nibble(0xf));
    assert OnesBelow(0) == {};
    hide Coefficients, Nibble, OnesBelow, Full;
    AllBits();
    OnesAre(0xf, 0);
    OnesAre(0xff, 4);
    OnesAre(0xfff, 8);
    OnesAre(0xffff, 12);
  }

  lemma NotIsXor(r: bv32)
    ensures !r == Xor(r, 0xffff_ffff)
  {
  }

  lemma Complemented(r: bv32)
    ensures Register(!r) == Ones() - Register(r)
  {
    NotIsXor(r);
    hide Coefficients, Xor;
    CoefficientsXor(r, 0xffff_ffff, 32);
    StartIsOnes();
    CoefficientsBelow(r, 32);
    assert forall e :: e in Register(r) ==> e in Ones();
  }

  /** What the checksum is a remainder of: the message moved up by 32 places, with 32 ones in
      front of it. */
  function Sent(input: seq<byte>): Poly {
    Plus(TimesX(Message(input), 32), TimesX(Ones(), 8 * |input|))
  }

  lemma RegisterIsRemainder(input: seq<byte>)
    ensures IsRemainder(Sent(input), Register(CrcBytes(0xffff_ffff, input)))
  {
    hide Coefficients, TimesX, Plus, CrcBytes, Message, Ones, Congruent;
    RegisterAfter(0xffff_ffff, input);
    StartIsOnes();
    PlusCommutes(TimesX(Ones(), 8 * |input|), TimesX(Message(input), 32));
    CoefficientsBelow(CrcBytes(0xffff_ffff, input), 32);
  }

  /** The checksum is the complement of that remainder modulo the generator. */
  lemma CrcIsRemainder(input: seq<byte>)
    ensures IsRemainder(Sent(input), Ones() - Register(Crc32(input)))
  {
    hide IsRemainder, Sent, Register, CrcBytes, Ones;
    RegisterIsRemainder(input);
    DoubleComplement(CrcBytes(0xffff_ffff, input));
  }

  lemma DoubleComplement(crc: bv32)
    ensures Ones() - Register(!crc) == Register(crc)
  {
    hide Coefficients;
    Complemented(crc);
    CoefficientsBelow(crc, 32);
  }

  // Values

  lemma OneByte(crc: bv32, b: byte, rest: seq<byte>)
    ensures CrcBytes(crc, [b] + rest) == CrcBytes(CrcByte(crc, b), rest)
  {
    hide CrcByte;
    assert ([b] + rest)[1..] == rest;
  }

  lemma TwoBytes(crc: bv32, a: byte, b: byte)
    ensures CrcBytes(crc, [a, b]) == CrcByte(CrcByte(crc, a), b)
  {
    hide CrcByte;
    assert [a, b] == [a] + [b] && [b] == [b] + [];
    OneByte(crc, a, [b]);
    OneByte(CrcByte(crc, a), b, []);
  }

  lemma ThreeBytes(crc: bv32, a: byte, b: byte, c: byte)
    ensures CrcBytes(crc, [a, b, c]) == CrcByte(CrcByte(CrcByte(crc, a), b), c)
  {
    hide CrcByte;
    assert [a, b, c] == [a] + [b, c];
    OneByte(crc, a, [b, c]);
    TwoBytes(CrcByte(crc, a), b, c);
  }

  lemma CheckPart0()
    ensures CrcBytes(0xffff_ffff, [0x31, 0x32, 0x33]) == 0x77b7_9c2d
  {
    assert CrcByte(0xffff_ffff, 0x31) == 0x7c23_1048;
    assert CrcByte(0x7c23_1048, 0x32) == 0xb0ac_bb32;
    assert CrcByte(0xb0ac_bb32, 0x33) == 0x77b7_9c2d;
    hide CrcByte;
    ThreeBytes(0xffff_ffff, 0x31, 0x32, 0x33);
  }

  lemma CheckPart1()
    ensures CrcBytes(0x77b7_9c2d, [0x34, 0x35, 0x36]) == 0xf68d_2c9e
  {
    assert CrcByte(0x77b7_9c2d, 0x34) == 0x641c_1f5c;
    assert CrcByte(0x641c_1f5c, 0x35) == 0x340a_c5e3;
    assert CrcByte(0x340a_c5e3, 0x36) == 0xf68d_2c9e;
    hide CrcByte;
    ThreeBytes(0x77b7_9c2d, 0x34, 0x35, 0x36);
  }

  lemma CheckPart2()
    ensures CrcBytes(0xf68d_2c9e, [0x37, 0x38, 0x39]) == 0x340b_c6d9
  {
    assert CrcByte(0xf68d_2c9e, 0x37) == 0xaffc_9660;
    assert CrcByte(0xaffc_9660, 0x38) == 0x651f_2550;
    assert CrcByte(0x651f_2550, 0x39) == 0x340b_c6d9;
    hide CrcByte;
    ThreeBytes(0xf68d_2c9e, 0x37, 0x38, 0x39);
  }

  lemma FilePart0()
    ensures CrcBytes(0xffff_ffff, [0x62, 0x6f, 0x64]) == 0xe357_eb8a
  {
    assert CrcByte(0xffff_ffff, 0x62) == 0x8e41_1006;
    assert CrcByte(0x8e41_1006, 0x6f) == 0x34e0_98ec;
    assert CrcByte(0x34e0_98ec, 0x64) == 0xe357_eb8a;
    hide CrcByte;
    ThreeBytes(0xffff_ffff, 0x62, 0x6f, 0x64);
  }

  lemma FilePart1()
    ensures CrcBytes(0xe357_eb8a, [0x79, 0xc0, 0x28]) == 0x0148_5cae
  {
    assert CrcByte(0xe357_eb8a, 0x79) == 0x2457_f44d;
    assert CrcByte(0x2457_f44d, 0xc0) == 0x932d_a869;
    assert CrcByte(0x932d_a869, 0x28) == 0x0148_5cae;
    hide CrcByte;
    ThreeBytes(0xe357_eb8a, 0x79, 0xc0, 0x28);
  }

  lemma FilePart2()
    ensures CrcBytes(0x0148_5cae, [0x93, 0xe8, 0x00]) == 0xd41d_d4dc
  {
    assert CrcByte(0x0148_5cae, 0x93) == 0x5869_044d;
    assert CrcByte(0x5869_044d, 0xe8) == 0xa6e4_3e63;
    assert CrcByte(0xa6e4_3e63, 0x00) == 0xd41d_d4dc;
    hide CrcByte;
    ThreeBytes(0x0148_5cae, 0x93, 0xe8, 0x00);
  }

  lemma FilePart3()
    ensures CrcBytes(0xd41d_d4dc, [0x00, 0x00, 0x00]) == 0x02c1_a042
  {
    assert CrcByte(0xd41d_d4dc, 0x00) == 0x8fb1_832b;
    assert CrcByte(0x8fb1_832b, 0x00) == 0xac33_48c3;
    assert CrcByte(0xac33_48c3, 0x00) == 0x02c1_a042;
    hide CrcByte;
    ThreeBytes(0xd41d_d4dc, 0x00, 0x00, 0x00);
  }

  /** The check value of CRC-32: the digits 1 to 9 give 0xcbf43926. */
  lemma CheckValue()
    ensures Crc32([0x31, 0x32, 0x33, 0x34, 0x35, 0x36, 0x37, 0x38, 0x39]) == 0xcbf4_3926
  {
    hide CrcBytes;
    var a, b, c: seq<byte> := [0x31, 0x32, 0x33], [0x34, 0x35, 0x36], [0x37, 0x38, 0x39];
    CheckPart0();
    CheckPart1();
    CheckPart2();
    CrcConcat(0xffff_ffff, a, b);
    CrcConcat(0xffff_ffff, a + b, c);
    assert a + b + c == [0x31, 0x32, 0x33, 0x34, 0x35, 0x36, 0x37, 0x38, 0x39];
  }

  const BODY: seq<byte> := [0x62, 0x6f, 0x64, 0x79]

  /** A file of four bytes with its footer, byte by byte. */
  lemma SmallFile()
    ensures WithFooter(BODY)
      == [0x62, 0x6f, 0x64, 0x79, 0xc0, 0x28, 0x93, 0xe8, 0, 0, 0, 0, 0, 0, 0, 0, 0xfd, 0x3e, 0x5f, 0xbd]
    ensures CheckFooter(WithFooter(BODY)) == Success(0xfd3e_5fbd)
  {
    SmallFileCrc();
    SmallFooter();
    hide Crc32, CheckFooter, FooterHead, Be64;
    WrittenIsAccepted(BODY);
  }

  lemma SmallFooter()
    ensures FooterHead() == [0xc0, 0x28, 0x93, 0xe8, 0, 0, 0, 0]
    ensures Be64(0xfd3e_5fbd) == [0, 0, 0, 0, 0xfd, 0x3e, 0x5f, 0xbd]
  {
  }

  lemma SmallFileCrc()
    ensures Crc32(BODY + FooterHead()) == 0xfd3e_5fbd
  {
    SmallFooter();
    hide CrcBytes, FooterHead;
    var a, b, c, d: seq<byte> := [0x62, 0x6f, 0x64], [0x79, 0xc0, 0x28], [0x93, 0xe8, 0x00], [0x00, 0x00, 0x00];
    FilePart0();
    FilePart1();
    FilePart2();
    FilePart3();
    CrcConcat(0xffff_ffff, a, b);
    CrcConcat(0xffff_ffff, a + b, c);
    CrcConcat(0xffff_ffff, a + b + c, d);
    assert a + b + c + d == BODY + FooterHead();
  }
}
