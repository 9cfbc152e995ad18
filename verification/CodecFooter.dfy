/** The codec footer and its checksum (CRC-32 of section 8 of RFC 1952, reflected form). */
module CodecFooter {

  type byte = bv8

  const CODEC_MAGIC: bv32 := 0x3fd76c17
  const FOOTER_MAGIC: bv32 := !CODEC_MAGIC
  const FOOTER_LENGTH := 16

  datatype FooterError =
    | FooterTooShort(length: nat)
    | FooterMismatch(actual: bv32)
    | UnknownChecksumAlgorithm(algorithmId: bv32)
    | IllegalChecksum(checksum: bv64)
    | ChecksumMismatch(expected: bv32, actual: bv32)

  datatype Result<+T> = Success(value: T) | Failure(error: FooterError)

  // The checksum

  function CrcBit(crc: bv32): bv32 {
    (crc >> 1) ^ (0xedb8_8320 & (0 - (crc & 1)))
  }

  function Crc2(crc: bv32): bv32 {
    CrcBit(CrcBit(crc))
  }

  function Crc4(crc: bv32): bv32 {
    Crc2(Crc2(crc))
  }

  /** Eight bits of the register. */
  function Crc8(crc: bv32): bv32 {
    Crc4(Crc4(crc))
  }

  function CrcByte(crc: bv32, b: byte): bv32 {
    Crc8(crc ^ (b as bv32))
  }

  function CrcBytes(crc: bv32, input: seq<byte>): bv32
    decreases input
  {
    if input == [] then crc else CrcBytes(CrcByte(crc, input[0]), input[1..])
  }

  function Crc32(input: seq<byte>): bv32 {
    !CrcBytes(0xffff_ffff, input)
  }

  function CrcBits(crc: bv32, n: nat): bv32 {
    if n == 0 then crc else CrcBit(CrcBits(crc, n - 1))
  }

  method Crc32Zlib(input: seq<byte>) returns (r: bv32)
    ensures r == Crc32(input)
  {
    hide Crc8;
    var crc: bv32 := 0xffff_ffff;
    assert input[0..] == input;
    for i := 0 to |input|
      invariant CrcBytes(crc, input[i..]) == CrcBytes(0xffff_ffff, input)
    {
      assert input[i..][1..] == input[i + 1..];
      crc := crc ^ (input[i] as bv32);
      crc := EightSteps(crc);
    }
    r := !crc;
  }

  /** The loop over the bits of a byte. */
  method EightSteps(mixed: bv32) returns (crc: bv32)
    ensures crc == Crc8(mixed)
  {
    hide Crc8, CrcBit;
    crc := mixed;
    for k := 0 to 8
      invariant crc == CrcBits(mixed, k)
    {
      crc := OneStep(crc);
    }
    EightBits(mixed);
  }

  method OneStep(crc: bv32) returns (next: bv32)
    ensures next == CrcBit(crc)
  {
    var mask := 0 - (crc & 1);
    next := (crc >> 1) ^ (0xedb8_8320 & mask);
  }

  lemma EightBits(crc: bv32)
    ensures CrcBits(crc, 8) == Crc8(crc)
  {
    hide CrcBit;
    assert CrcBits(crc, 1) == CrcBit(crc);
    assert CrcBits(crc, 2) == Crc2(crc);
    assert CrcBits(crc, 3) == CrcBit(Crc2(crc));
    assert CrcBits(crc, 4) == Crc4(crc);
    assert CrcBits(crc, 5) == CrcBit(Crc4(crc));
    assert CrcBits(crc, 6) == Crc2(Crc4(crc));
    assert CrcBits(crc, 7) == CrcBit(Crc2(Crc4(crc)));
  }

  // Eight bits: injective, linear, and a plain shift above the low byte

  lemma CrcBitInjective(a: bv32, b: bv32)
    requires CrcBit(a) == CrcBit(b)
    ensures a == b
  {
  }

  lemma Crc2Injective(a: bv32, b: bv32)
    requires Crc2(a) == Crc2(b)
    ensures a == b
  {
    hide CrcBit;
    CrcBitInjective(CrcBit(a), CrcBit(b));
    CrcBitInjective(a, b);
  }

  lemma Crc4Injective(a: bv32, b: bv32)
    requires Crc4(a) == Crc4(b)
    ensures a == b
  {
    hide Crc2;
    Crc2Injective(Crc2(a), Crc2(b));
    Crc2Injective(a, b);
  }

  lemma Crc8Injective(a: bv32, b: bv32)
    requires Crc8(a) == Crc8(b)
    ensures a == b
  {
    hide Crc4;
    Crc4Injective(Crc4(a), Crc4(b));
    Crc4Injective(a, b);
  }

  function Xor(a: bv32, b: bv32): bv32 {
    a ^ b
  }

  function Half(a: bv32): bv32 {
    a >> 1
  }

  predicate Odd(a: bv32) {
    a & 1 == 1
  }

  const POLYNOMIAL: bv32 := 0xedb8_8320

  lemma CrcBitCases(crc: bv32)
    ensures CrcBit(crc) == if Odd(crc) then Xor(Half(crc), POLYNOMIAL) else Half(crc)
  {
    if Odd(crc) {
      assert 0xedb8_8320 & (0 - (crc & 1)) == POLYNOMIAL;
    } else {
      assert crc & 1 == 0;
      assert 0xedb8_8320 & (0 - (crc & 1)) == 0;
    }
  }

  lemma XorParts(a: bv32, b: bv32)
    ensures Odd(Xor(a, b)) <==> Odd(a) != Odd(b)
    ensures Half(Xor(a, b)) == Xor(Half(a), Half(b))
  {
  }

  lemma XorShuffle(a: bv32, b: bv32, m: bv32)
    ensures Xor(Xor(a, m), b) == Xor(Xor(a, b), m)
    ensures Xor(a, Xor(b, m)) == Xor(Xor(a, b), m)
    ensures Xor(Xor(a, m), Xor(b, m)) == Xor(a, b)
  {
  }

  lemma CrcBitLinear(a: bv32, b: bv32)
    ensures CrcBit(Xor(a, b)) == Xor(CrcBit(a), CrcBit(b))
  {
    hide CrcBit, Xor, Half, Odd;
    CrcBitCases(a);
    CrcBitCases(b);
    CrcBitCases(Xor(a, b));
    XorParts(a, b);
    XorShuffle(Half(a), Half(b), POLYNOMIAL);
  }

  lemma Crc2Linear(a: bv32, b: bv32)
    ensures Crc2(Xor(a, b)) == Xor(Crc2(a), Crc2(b))
  {
    hide CrcBit, Xor;
    CrcBitLinear(a, b);
    CrcBitLinear(CrcBit(a), CrcBit(b));
  }

  lemma Crc4Linear(a: bv32, b: bv32)
    ensures Crc4(Xor(a, b)) == Xor(Crc4(a), Crc4(b))
  {
    hide Crc2, Xor;
    Crc2Linear(a, b);
    Crc2Linear(Crc2(a), Crc2(b));
  }

  lemma Crc8Linear(a: bv32, b: bv32)
    ensures Crc8(Xor(a, b)) == Xor(Crc8(a), Crc8(b))
  {
    hide Crc4, Xor;
    Crc4Linear(a, b);
    Crc4Linear(Crc4(a), Crc4(b));
  }

  lemma Crc8Shift(a: bv32)
    requires a & 0xff == 0
    ensures Crc8(a) == a >> 8
  {
  }

  /** A byte placed above the low 8 bits, carried through the register with another value. */
  lemma Crc8Carry(a: bv32, b: bv32)
    requires b & 0xff == 0
    ensures Xor(Crc8(a), b >> 8) == Crc8(Xor(a, b))
  {
    hide Crc8, Xor;
    Crc8Shift(b);
    Crc8Linear(a, b);
  }

  // Words: four bytes entering the register

  function B0(b: byte): bv32 { b as bv32 }

  function B1(b: byte): bv32 { (b as bv32) << 8 }

  function B2(b: byte): bv32 { (b as bv32) << 16 }

  function B3(b: byte): bv32 { (b as bv32) << 24 }

  lemma Places(b: byte)
    ensures B1(b) & 0xff == 0 && B1(b) >> 8 == B0(b)
    ensures B2(b) & 0xff == 0 && B2(b) >> 8 == B1(b)
    ensures B3(b) & 0xff == 0 && B3(b) >> 8 == B2(b)
  {
  }

  /** A byte met after one, two or three others, moved back under them. */
  lemma MovedBack(y: bv32, b: byte)
    ensures Xor(Crc8(y), B0(b)) == Crc8(Xor(y, B1(b)))
    ensures Xor(Crc8(Crc8(y)), B0(b)) == Crc8(Crc8(Xor(y, B2(b))))
    ensures Xor(Crc8(Crc8(Crc8(y))), B0(b)) == Crc8(Crc8(Crc8(Xor(y, B3(b)))))
  {
    hide Crc8, Xor, B0, B1, B2, B3;
    Places(b);
    Crc8Carry(y, B1(b));
    Crc8Carry(Crc8(y), B1(b));
    Crc8Carry(y, B2(b));
    Crc8Carry(Crc8(Crc8(y)), B1(b));
    Crc8Carry(Crc8(y), B2(b));
    Crc8Carry(y, B3(b));
  }

  /** The register mixed with four bytes, the first lowest. */
  function Mixed(crc: bv32, x: seq<byte>): bv32
    requires |x| == 4
  {
    Xor(Xor(Xor(Xor(crc, B0(x[0])), B1(x[1])), B2(x[2])), B3(x[3]))
  }

  lemma FourBytes(crc: bv32, x: seq<byte>)
    requires |x| == 4
    ensures CrcBytes(crc, x) == Crc8(Crc8(Crc8(Crc8(Mixed(crc, x)))))
  {
    hide Crc8, Xor, B0, B1, B2, B3, CrcByte;
    Unrolled(crc, x);
    CrcByteIs(crc, x[0]);
    var y1 := Xor(crc, B0(x[0]));
    MovedBack(y1, x[1]);
    CrcByteIs(Crc8(y1), x[1]);
    var y2 := Xor(y1, B1(x[1]));
    MovedBack(y2, x[2]);
    CrcByteIs(Crc8(Crc8(y2)), x[2]);
    var y3 := Xor(y2, B2(x[2]));
    MovedBack(y3, x[3]);
    CrcByteIs(Crc8(Crc8(Crc8(y3))), x[3]);
  }

  lemma CrcByteIs(crc: bv32, b: byte)
    ensures CrcByte(crc, b) == Crc8(Xor(crc, B0(b)))
  {
    hide Crc8;
  }

  lemma Unrolled(crc: bv32, x: seq<byte>)
    requires |x| == 4
    ensures CrcBytes(crc, x) == CrcByte(CrcByte(CrcByte(CrcByte(crc, x[0]), x[1]), x[2]), x[3])
  {
    hide CrcByte;
    var c1 := CrcByte(crc, x[0]);
    var c2 := CrcByte(c1, x[1]);
    var c3 := CrcByte(c2, x[2]);
    assert CrcBytes(c3, x[1..][1..][1..]) == CrcByte(c3, x[3]);
    assert CrcBytes(c2, x[1..][1..]) == CrcBytes(c3, x[1..][1..][1..]);
    assert CrcBytes(c1, x[1..]) == CrcBytes(c2, x[1..][1..]);
  }

  function LittleEndian(word: bv32): seq<byte> {
    [(word & 0xff) as byte, ((word >> 8) & 0xff) as byte, ((word >> 16) & 0xff) as byte, ((word >> 24) & 0xff) as byte]
  }

  lemma WordBytes(b0: byte, b1: byte, b2: byte, b3: byte)
    ensures LittleEndian(Xor(Xor(Xor(B0(b0), B1(b1)), B2(b2)), B3(b3))) == [b0, b1, b2, b3]
  {
  }

  lemma Unmix(crc: bv32, w0: bv32, w1: bv32, w2: bv32, w3: bv32)
    ensures Xor(Xor(Xor(Xor(Xor(crc, w0), w1), w2), w3), crc) == Xor(Xor(Xor(w0, w1), w2), w3)
  {
  }

  /** The four bytes can be read back from the mixed register. */
  lemma MixedBytes(crc: bv32, x: seq<byte>)
    requires |x| == 4
    ensures x == LittleEndian(Xor(Mixed(crc, x), crc))
  {
    hide Xor, B0, B1, B2, B3, LittleEndian;
    WordBytes(x[0], x[1], x[2], x[3]);
    Unmix(crc, B0(x[0]), B1(x[1]), B2(x[2]), B3(x[3]));
  }

  lemma FourBytesInjective(crc: bv32, x: seq<byte>, y: seq<byte>)
    requires |x| == |y| == 4 && CrcBytes(crc, x) == CrcBytes(crc, y)
    ensures x == y
  {
    hide Crc8, Mixed, CrcBytes, Xor, LittleEndian;
    FourBytes(crc, x);
    FourBytes(crc, y);
    var a, b := Mixed(crc, x), Mixed(crc, y);
    Crc8Injective(Crc8(Crc8(Crc8(a))), Crc8(Crc8(Crc8(b))));
    Crc8Injective(Crc8(Crc8(a)), Crc8(Crc8(b)));
    Crc8Injective(Crc8(a), Crc8(b));
    Crc8Injective(a, b);
    MixedBytes(crc, x);
    MixedBytes(crc, y);
  }

  // Whole inputs

  lemma {:induction false} CrcConcat(crc: bv32, s: seq<byte>, t: seq<byte>)
    ensures CrcBytes(crc, s + t) == CrcBytes(CrcBytes(crc, s), t)
    decreases s
  {
    hide CrcByte;
    if s == [] {
      assert s + t == t;
    } else {
      assert (s + t)[1..] == s[1..] + t;
      CrcConcat(CrcByte(crc, s[0]), s[1..], t);
    }
  }

  lemma CrcByteInjective(a: bv32, c: bv32, b: byte)
    requires CrcByte(a, b) == CrcByte(c, b)
    ensures a == c
  {
    hide Crc8, Xor, B0, CrcByte;
    CrcByteIs(a, b);
    CrcByteIs(c, b);
    Crc8Injective(Xor(a, B0(b)), Xor(c, B0(b)));
    XorCancel(a, c, B0(b));
  }

  lemma XorCancel(a: bv32, c: bv32, m: bv32)
    requires Xor(a, m) == Xor(c, m)
    ensures a == c
  {
  }

  lemma {:induction false} CrcStateInjective(a: bv32, b: bv32, t: seq<byte>)
    requires CrcBytes(a, t) == CrcBytes(b, t)
    ensures a == b
    decreases t
  {
    hide CrcByte;
    if t != [] {
      CrcStateInjective(CrcByte(a, t[0]), CrcByte(b, t[0]), t[1..]);
      CrcByteInjective(a, b, t[0]);
    }
  }

  lemma ShortInjective(crc: bv32, x: seq<byte>, y: seq<byte>)
    requires |x| == |y| <= 4 && CrcBytes(crc, x) == CrcBytes(crc, y)
    ensures x == y
  {
    hide CrcBytes;
    var pad: seq<byte> := seq(4 - |x|, _ => 0);
    CrcConcat(crc, x, pad);
    CrcConcat(crc, y, pad);
    FourBytesInjective(crc, x + pad, y + pad);
    assert x == (x + pad)[..|x|] && y == (y + pad)[..|y|];
  }

  /** Any change confined to four consecutive bytes changes the checksum. */
  lemma BurstChangesCrc(p: seq<byte>, x: seq<byte>, y: seq<byte>, t: seq<byte>)
    requires |x| == |y| <= 4 && x != y
    ensures Crc32(p + x + t) != Crc32(p + y + t)
  {
    hide CrcBytes;
    var c := CrcBytes(0xffff_ffff, p);
    CrcConcat(0xffff_ffff, p, x);
    CrcConcat(0xffff_ffff, p, y);
    CrcConcat(0xffff_ffff, p + x, t);
    CrcConcat(0xffff_ffff, p + y, t);
    ComplementInjective(CrcBytes(0xffff_ffff, p + x + t), CrcBytes(0xffff_ffff, p + y + t));
    if Crc32(p + x + t) == Crc32(p + y + t) {
      CrcStateInjective(CrcBytes(c, x), CrcBytes(c, y), t);
      ShortInjective(c, x, y);
    }
  }

  lemma ComplementInjective(a: bv32, b: bv32)
    ensures !a == !b ==> a == b
  {
  }

  // The footer

  function Be32(w: bv32): (r: seq<byte>)
    ensures |r| == 4
  {
    [((w >> 24) & 0xff) as byte, ((w >> 16) & 0xff) as byte, ((w >> 8) & 0xff) as byte, (w & 0xff) as byte]
  }

  function Be64(w: bv64): (r: seq<byte>)
    ensures |r| == 8
  {
    Be32(((w >> 32) & 0xffff_ffff) as bv32) + Be32((w & 0xffff_ffff) as bv32)
  }

  function ReadBe32(s: seq<byte>): bv32
    requires |s| == 4
  {
    ((s[0] as bv32) << 24) | ((s[1] as bv32) << 16) | ((s[2] as bv32) << 8) | (s[3] as bv32)
  }

  function ReadBe64(s: seq<byte>): bv64
    requires |s| == 8
  {
    Joined(ReadBe32(s[..4]), ReadBe32(s[4..]))
  }

  function Joined(high: bv32, low: bv32): bv64 {
    ((high as bv64) << 32) | (low as bv64)
  }

  predicate HasHighBits(w: bv64) {
    w & 0xffff_ffff_0000_0000 != 0
  }

  function Truncated(w: bv64): bv32 {
    (w & 0xffff_ffff) as bv32
  }

  function FooterHead(): (r: seq<byte>)
    ensures |r| == 8
  {
    Be32(FOOTER_MAGIC) + Be32(0)
  }

  function WithFooter(body: seq<byte>): (r: seq<byte>)
    ensures |r| == |body| + FOOTER_LENGTH
  {
    body + FooterHead() + Be64(Crc32(body + FooterHead()) as bv64)
  }

  function ValidateFooter(input: seq<byte>): (r: Result<bv64>)
    ensures r.Success? ==> |input| >= FOOTER_LENGTH
  {
    if |input| < FOOTER_LENGTH then Failure(FooterTooShort(|input|))
    else
      var at := |input| - FOOTER_LENGTH;
      var magic := ReadBe32(input[at..at + 4]);
      if magic != FOOTER_MAGIC then Failure(FooterMismatch(magic))
      else
        var algorithm := ReadBe32(input[at + 4..at + 8]);
        if algorithm != 0 then Failure(UnknownChecksumAlgorithm(algorithm))
        else
          var checksum := ReadBe64(input[at + 8..]);
          if HasHighBits(checksum) then Failure(IllegalChecksum(checksum)) else Success(checksum)
  }

  function CheckFooter(input: seq<byte>): Result<bv32> {
    match ValidateFooter(input)
    case Failure(e) => Failure(e)
    case Success(checksum) =>
      var expected := Truncated(checksum);
      var actual := Crc32(input[..|input| - 8]);
      if expected != actual then Failure(ChecksumMismatch(expected, actual)) else Success(actual)
  }

  method WriteFooter(output: seq<byte>) returns (output': seq<byte>)
    ensures output' == WithFooter(output)
  {
    output' := output + Be32(FOOTER_MAGIC);
    output' := output' + Be32(0);
    assert output' == output + FooterHead();
    var checksum := Crc32Zlib(output');
    output' := output' + Be64(checksum as bv64);
  }

  /** The reader: the footer's fields in order, then the checksum of everything before it. */
  method CheckFooterBytes(input: seq<byte>) returns (r: Result<bv32>)
    ensures r == CheckFooter(input)
  {
    hide Crc32, ReadBe32, ReadBe64, HasHighBits, Truncated;
    if |input| < FOOTER_LENGTH {
      return Failure(FooterTooShort(|input|));
    }
    var position := |input| - FOOTER_LENGTH;
    var magic := ReadBe32(input[position..position + 4]);
    position := position + 4;
    if magic != FOOTER_MAGIC {
      return Failure(FooterMismatch(magic));
    }
    var algorithm := ReadBe32(input[position..position + 4]);
    position := position + 4;
    if algorithm != 0 {
      return Failure(UnknownChecksumAlgorithm(algorithm));
    }
    var checksum := ReadBe64(input[position..]);
    if HasHighBits(checksum) {
      return Failure(IllegalChecksum(checksum));
    }
    var actual := Crc32Zlib(input[..|input| - 8]);
    if Truncated(checksum) != actual {
      return Failure(ChecksumMismatch(Truncated(checksum), actual));
    }
    r := Success(actual);
  }

  lemma Be32RoundTrip(w: bv32)
    ensures ReadBe32(Be32(w)) == w
  {
  }

  lemma ReadBe32RoundTrip(s: seq<byte>)
    requires |s| == 4
    ensures Be32(ReadBe32(s)) == s
  {
  }

  /** A 64-bit word read back whose high half is zero is its low half, and conversely. */
  lemma HalvesOf(high: bv32, low: bv32)
    ensures HasHighBits(Joined(high, low)) <==> high != 0
    ensures Truncated(Joined(high, low)) == low
  {
  }

  lemma LowHalf(low: bv32)
    ensures (((low as bv64) >> 32) & 0xffff_ffff) as bv32 == 0 && ((low as bv64) & 0xffff_ffff) as bv32 == low
  {
  }

  lemma ReadBe64ByParts(h: seq<byte>, l: seq<byte>)
    requires |h| == |l| == 4
    ensures ReadBe64(h + l) == Joined(ReadBe32(h), ReadBe32(l))
  {
    hide ReadBe32, Joined;
    assert (h + l)[..4] == h && (h + l)[4..] == l;
  }

  /** The five parts of a file with a footer. */
  lemma Parts(body: seq<byte>, m: seq<byte>, a: seq<byte>, h: seq<byte>, l: seq<byte>)
    requires |m| == |a| == |h| == |l| == 4
    ensures var input, at := body + m + a + h + l, |body|;
      && |input| == at + FOOTER_LENGTH
      && input[at..at + 4] == m && input[at + 4..at + 8] == a && input[at + 8..] == h + l
      && input[..|input| - 8] == body + m + a
  {
  }

  lemma CheckByParts(body: seq<byte>, m: seq<byte>, a: seq<byte>, h: seq<byte>, l: seq<byte>)
    requires |m| == |a| == |h| == |l| == 4
    ensures CheckFooter(body + m + a + h + l).Success?
      <==> (ReadBe32(m) == FOOTER_MAGIC && ReadBe32(a) == 0 && ReadBe32(h) == 0 && ReadBe32(l) == Crc32(body + m + a))
  {
    hide Crc32, ReadBe32, ReadBe64, Joined, HasHighBits, Truncated;
    Parts(body, m, a, h, l);
    ReadBe64ByParts(h, l);
    HalvesOf(ReadBe32(h), ReadBe32(l));
  }

  /** Why a file is refused: too short for a footer, a wrong magic, an unknown algorithm, a
      checksum of more than 32 bits, or one that is not the checksum of what comes before it,
      whichever comes first. Any sixteen bytes are four such words. */
  lemma RefusedBecause(body: seq<byte>, m: bv32, a: bv32, h: bv32, l: bv32)
    ensures |body| < 16 ==> CheckFooter(body) == Failure(FooterTooShort(|body|))
    ensures var r := CheckFooter(body + Be32(m) + Be32(a) + Be32(h) + Be32(l));
      var crc := Crc32(body + Be32(m) + Be32(a));
      r == if m != 0xc028_93e8 then Failure(FooterMismatch(m))
           else if a != 0 then Failure(UnknownChecksumAlgorithm(a))
           else if h != 0 then Failure(IllegalChecksum(Joined(h, l)))
           else if l != crc then Failure(ChecksumMismatch(l, crc))
           else Success(crc)
  {
    MagicIs();
    Be32RoundTrip(m);
    Be32RoundTrip(a);
    Be32RoundTrip(h);
    Be32RoundTrip(l);
    hide Crc32, ReadBe32, ReadBe64, Joined, HasHighBits, Truncated, Be32;
    Parts(body, Be32(m), Be32(a), Be32(h), Be32(l));
    ReadBe64ByParts(Be32(h), Be32(l));
    HalvesOf(h, l);
  }

  lemma MagicIs()
    ensures FOOTER_MAGIC == 0xc028_93e8
  {
  }

  lemma FourWords(input: seq<byte>) returns (body: seq<byte>, m: bv32, a: bv32, h: bv32, l: bv32)
    requires |input| >= 16
    ensures input == body + Be32(m) + Be32(a) + Be32(h) + Be32(l)
  {
    var at := |input| - 16;
    var x, y, z, w := input[at..at + 4], input[at + 4..at + 8], input[at + 8..at + 12], input[at + 12..];
    ReadBe32RoundTrip(x);
    ReadBe32RoundTrip(y);
    ReadBe32RoundTrip(z);
    ReadBe32RoundTrip(w);
    body, m, a, h, l := input[..at], ReadBe32(x), ReadBe32(y), ReadBe32(z), ReadBe32(w);
    hide Be32, ReadBe32;
    assert input == input[..at] + x + y + z + w;
  }

  lemma WrittenByParts(body: seq<byte>, m: seq<byte>, a: seq<byte>, h: seq<byte>, l: seq<byte>)
    requires |m| == |a| == |h| == |l| == 4
    ensures body + m + a + h + l == WithFooter(body)
      <==> (m == Be32(FOOTER_MAGIC) && a == Be32(0) && h == Be32(0) && l == Be32(Crc32(body + m + a)))
  {
    hide Crc32, Be32;
    var magic, zero := Be32(FOOTER_MAGIC), Be32(0);
    var crc := Crc32(body + FooterHead());
    LowHalf(crc);
    assert WithFooter(body) == body + magic + zero + zero + Be32(crc);
    assert body + FooterHead() == body + magic + zero;
    var x, y, at := body + m + a + h + l, body + magic + zero + zero + Be32(crc), |body|;
    if x == y {
      assert m == x[at..at + 4] && magic == y[at..at + 4];
      assert a == x[at + 4..at + 8] && zero == y[at + 4..at + 8];
      assert h == x[at + 8..at + 12] && zero == y[at + 8..at + 12];
      assert l == x[at + 12..] && Be32(crc) == y[at + 12..];
    }
  }

  lemma Be32Iff(s: seq<byte>, w: bv32)
    requires |s| == 4
    ensures s == Be32(w) <==> ReadBe32(s) == w
  {
    Be32RoundTrip(w);
    ReadBe32RoundTrip(s);
  }

  /** The footer accepts exactly the outputs of the writer: nothing else of any length passes. */
  lemma AcceptedIsWritten(input: seq<byte>)
    ensures CheckFooter(input).Success?
      <==> (|input| >= FOOTER_LENGTH && input == WithFooter(input[..|input| - FOOTER_LENGTH]))
  {
    if |input| >= FOOTER_LENGTH {
      hide Crc32, ReadBe32, Be32, CheckFooter, WithFooter;
      var at := |input| - FOOTER_LENGTH;
      var body, m, a := input[..at], input[at..at + 4], input[at + 4..at + 8];
      var h, l := input[at + 8..at + 12], input[at + 12..];
      assert input == body + m + a + h + l;
      CheckByParts(body, m, a, h, l);
      WrittenByParts(body, m, a, h, l);
      Be32Iff(m, FOOTER_MAGIC);
      Be32Iff(a, 0);
      Be32Iff(h, 0);
      Be32Iff(l, Crc32(body + m + a));
    }
  }

  /** The checker returns the checksum the writer stored. */
  lemma WrittenIsAccepted(body: seq<byte>)
    ensures CheckFooter(WithFooter(body)) == Success(Crc32(body + FooterHead()))
  {
    hide Crc32, WithFooter, CheckFooter;
    var w := WithFooter(body);
    WithFooterParts(body);
    AcceptedIsWritten(w);
    AcceptedValue(w);
  }

  lemma WithFooterParts(body: seq<byte>)
    ensures var w := WithFooter(body);
      w[..|w| - FOOTER_LENGTH] == body && w[..|w| - 8] == body + FooterHead()
  {
    hide Crc32, Be64;
  }

  lemma AcceptedValue(input: seq<byte>)
    requires CheckFooter(input).Success?
    ensures |input| >= 8 && CheckFooter(input).value == Crc32(input[..|input| - 8])
  {
    hide Crc32;
  }

  ghost predicate DifferWithin(a: seq<byte>, b: seq<byte>, at: nat) {
    |a| == |b| && a != b && forall i :: 0 <= i < |a| && !(at <= i < at + 4) ==> a[i] == b[i]
  }

  /** A file with a footer altered anywhere within four consecutive bytes — one byte in
      particular — is always rejected. */
  lemma BurstRejected(body: seq<byte>, altered: seq<byte>, at: nat)
    requires DifferWithin(WithFooter(body), altered, at)
    ensures CheckFooter(altered).Failure?
  {
    hide Crc32, WithFooter, CheckFooter, FooterHead;
    AcceptedIsWritten(altered);
    var body' := altered[..|altered| - FOOTER_LENGTH];
    if altered == WithFooter(body') {
      FilesFarApart(body, body', at);
    }
  }

  lemma Middle(a: seq<byte>, b: seq<byte>, lo: nat, hi: nat, t: seq<byte>)
    requires |a| == |b| && lo <= hi <= |a|
    requires forall i :: 0 <= i < |a| && !(lo <= i < hi) ==> a[i] == b[i]
    ensures a + t == a[..lo] + a[lo..hi] + (a[hi..] + t)
    ensures b + t == a[..lo] + b[lo..hi] + (a[hi..] + t)
  {
    assert b[..lo] == a[..lo] && b[hi..] == a[hi..];
    assert a == a[..lo] + a[lo..hi] + a[hi..] && b == b[..lo] + b[lo..hi] + b[hi..];
  }

  /** Bodies that differ within four bytes only have different checksums under the same tail. */
  lemma BurstInBody(a: seq<byte>, b: seq<byte>, at: nat, t: seq<byte>)
    requires DifferWithin(a, b, at)
    ensures Crc32(a + t) != Crc32(b + t)
  {
    hide Crc32;
    var n := |a|;
    var hi := if at + 4 < n then at + 4 else n;
    var i :| 0 <= i < n && a[i] != b[i];
    assert at <= i < hi;
    assert a[at..hi][i - at] == a[i] && b[at..hi][i - at] == b[i];
    Middle(a, b, at, hi, t);
    BurstChangesCrc(a[..at], a[at..hi], b[at..hi], a[hi..] + t);
  }

  /** Two files with footers never differ within four bytes only. */
  lemma FilesFarApart(body: seq<byte>, body': seq<byte>, at: nat)
    requires |body| == |body'|
    ensures !DifferWithin(WithFooter(body), WithFooter(body'), at)
  {
    hide Crc32, FooterHead, WithFooter;
    var w, w', n := WithFooter(body), WithFooter(body'), |body|;
    if DifferWithin(w, w', at) {
      WithFooterParts(body);
      WithFooterParts(body');
      assert body != body';
      forall i | 0 <= i < n && !(at <= i < at + 4) ensures body[i] == body'[i] {
        assert body[i] == w[i] && body'[i] == w'[i];
      }
      BurstInBody(body, body', at, FooterHead());
      assert at < n;
      SameLowHalf(body, body');
    }
  }

  /** Files whose last four bytes agree store the same checksum. */
  lemma SameLowHalf(body: seq<byte>, body': seq<byte>)
    requires |body| == |body'|
    requires forall i :: |body| + 12 <= i < |body| + 16 ==> WithFooter(body)[i] == WithFooter(body')[i]
    ensures Crc32(body + FooterHead()) == Crc32(body' + FooterHead())
  {
    hide Crc32, Be32, ReadBe32;
    var c, c', n := Crc32(body + FooterHead()), Crc32(body' + FooterHead()), |body|;
    LowHalf(c);
    LowHalf(c');
    var w, w' := WithFooter(body), WithFooter(body');
    assert Be32(c) == w[n + 12..] && Be32(c') == w'[n + 12..];
    var x, x' := w[n + 12..], w'[n + 12..];
    forall k | 0 <= k < |x| ensures x[k] == x'[k] {
      assert w[n + 12 + k] == w'[n + 12 + k];
    }
    assert x == x';
    Be32RoundTrip(c);
    Be32RoundTrip(c');
  }
}
