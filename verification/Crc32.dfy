/** CRC-32, bit by bit and by table. */
module Crc32 {

  type word = bv32

  const POLYNOMIAL: word := 0xEDB88320

  const TABLE16: seq<word> := [
    0x00000000, 0x1db71064, 0x3b6e20c8, 0x26d930ac, 0x76dc4190, 0x6b6b51f4, 0x4db26158, 0x5005713c,
    0xedb88320, 0xf00f9344, 0xd6d6a3e8, 0xcb61b38c, 0x9b64c2b0, 0x86d3d2d4, 0xa00ae278, 0xbdbdf21c]

  /** The large table, in rows of sixteen entries. */
  const ROW0: seq<word> := [
    0x00000000, 0x77073096, 0xee0e612c, 0x990951ba, 0x076dc419, 0x706af48f, 0xe963a535, 0x9e6495a3,
    0x0edb8832, 0x79dcb8a4, 0xe0d5e91e, 0x97d2d988, 0x09b64c2b, 0x7eb17cbd, 0xe7b82d07, 0x90bf1d91]
  const ROW1: seq<word> := [
    0x1db71064, 0x6ab020f2, 0xf3b97148, 0x84be41de, 0x1adad47d, 0x6ddde4eb, 0xf4d4b551, 0x83d385c7,
    0x136c9856, 0x646ba8c0, 0xfd62f97a, 0x8a65c9ec, 0x14015c4f, 0x63066cd9, 0xfa0f3d63, 0x8d080df5]
  const ROW2: seq<word> := [
    0x3b6e20c8, 0x4c69105e, 0xd56041e4, 0xa2677172, 0x3c03e4d1, 0x4b04d447, 0xd20d85fd, 0xa50ab56b,
    0x35b5a8fa, 0x42b2986c, 0xdbbbc9d6, 0xacbcf940, 0x32d86ce3, 0x45df5c75, 0xdcd60dcf, 0xabd13d59]
  const ROW3: seq<word> := [
    0x26d930ac, 0x51de003a, 0xc8d75180, 0xbfd06116, 0x21b4f4b5, 0x56b3c423, 0xcfba9599, 0xb8bda50f,
    0x2802b89e, 0x5f058808, 0xc60cd9b2, 0xb10be924, 0x2f6f7c87, 0x58684c11, 0xc1611dab, 0xb6662d3d]
  const ROW4: seq<word> := [
    0x76dc4190, 0x01db7106, 0x98d220bc, 0xefd5102a, 0x71b18589, 0x06b6b51f, 0x9fbfe4a5, 0xe8b8d433,
    0x7807c9a2, 0x0f00f934, 0x9609a88e, 0xe10e9818, 0x7f6a0dbb, 0x086d3d2d, 0x91646c97, 0xe6635c01]
  const ROW5: seq<word> := [
    0x6b6b51f4, 0x1c6c6162, 0x856530d8, 0xf262004e, 0x6c0695ed, 0x1b01a57b, 0x8208f4c1, 0xf50fc457,
    0x65b0d9c6, 0x12b7e950, 0x8bbeb8ea, 0xfcb9887c, 0x62dd1ddf, 0x15da2d49, 0x8cd37cf3, 0xfbd44c65]
  const ROW6: seq<word> := [
    0x4db26158, 0x3ab551ce, 0xa3bc0074, 0xd4bb30e2, 0x4adfa541, 0x3dd895d7, 0xa4d1c46d, 0xd3d6f4fb,
    0x4369e96a, 0x346ed9fc, 0xad678846, 0xda60b8d0, 0x44042d73, 0x33031de5, 0xaa0a4c5f, 0xdd0d7cc9]
  const ROW7: seq<word> := [
    0x5005713c, 0x270241aa, 0xbe0b1010, 0xc90c2086, 0x5768b525, 0x206f85b3, 0xb966d409, 0xce61e49f,
    0x5edef90e, 0x29d9c998, 0xb0d09822, 0xc7d7a8b4, 0x59b33d17, 0x2eb40d81, 0xb7bd5c3b, 0xc0ba6cad]
  const ROW8: seq<word> := [
    0xedb88320, 0x9abfb3b6, 0x03b6e20c, 0x74b1d29a, 0xead54739, 0x9dd277af, 0x04db2615, 0x73dc1683,
    0xe3630b12, 0x94643b84, 0x0d6d6a3e, 0x7a6a5aa8, 0xe40ecf0b, 0x9309ff9d, 0x0a00ae27, 0x7d079eb1]
  const ROW9: seq<word> := [
    0xf00f9344, 0x8708a3d2, 0x1e01f268, 0x6906c2fe, 0xf762575d, 0x806567cb, 0x196c3671, 0x6e6b06e7,
    0xfed41b76, 0x89d32be0, 0x10da7a5a, 0x67dd4acc, 0xf9b9df6f, 0x8ebeeff9, 0x17b7be43, 0x60b08ed5]
  const ROW10: seq<word> := [
    0xd6d6a3e8, 0xa1d1937e, 0x38d8c2c4, 0x4fdff252, 0xd1bb67f1, 0xa6bc5767, 0x3fb506dd, 0x48b2364b,
    0xd80d2bda, 0xaf0a1b4c, 0x36034af6, 0x41047a60, 0xdf60efc3, 0xa867df55, 0x316e8eef, 0x4669be79]
  const ROW11: seq<word> := [
    0xcb61b38c, 0xbc66831a, 0x256fd2a0, 0x5268e236, 0xcc0c7795, 0xbb0b4703, 0x220216b9, 0x5505262f,
    0xc5ba3bbe, 0xb2bd0b28, 0x2bb45a92, 0x5cb36a04, 0xc2d7ffa7, 0xb5d0cf31, 0x2cd99e8b, 0x5bdeae1d]
  const ROW12: seq<word> := [
    0x9b64c2b0, 0xec63f226, 0x756aa39c, 0x026d930a, 0x9c0906a9, 0xeb0e363f, 0x72076785, 0x05005713,
    0x95bf4a82, 0xe2b87a14, 0x7bb12bae, 0x0cb61b38, 0x92d28e9b, 0xe5d5be0d, 0x7cdcefb7, 0x0bdbdf21]
  const ROW13: seq<word> := [
    0x86d3d2d4, 0xf1d4e242, 0x68ddb3f8, 0x1fda836e, 0x81be16cd, 0xf6b9265b, 0x6fb077e1, 0x18b74777,
    0x88085ae6, 0xff0f6a70, 0x66063bca, 0x11010b5c, 0x8f659eff, 0xf862ae69, 0x616bffd3, 0x166ccf45]
  const ROW14: seq<word> := [
    0xa00ae278, 0xd70dd2ee, 0x4e048354, 0x3903b3c2, 0xa7672661, 0xd06016f7, 0x4969474d, 0x3e6e77db,
    0xaed16a4a, 0xd9d65adc, 0x40df0b66, 0x37d83bf0, 0xa9bcae53, 0xdebb9ec5, 0x47b2cf7f, 0x30b5ffe9]
  const ROW15: seq<word> := [
    0xbdbdf21c, 0xcabac28a, 0x53b39330, 0x24b4a3a6, 0xbad03605, 0xcdd70693, 0x54de5729, 0x23d967bf,
    0xb3667a2e, 0xc4614ab8, 0x5d681b02, 0x2a6f2b94, 0xb40bbe37, 0xc30c8ea1, 0x5a05df1b, 0x2d02ef8d]

  function Row(h: nat): seq<word>
    requires h < 16
  {
    match h
    case 0 => ROW0
    case 1 => ROW1
    case 2 => ROW2
    case 3 => ROW3
    case 4 => ROW4
    case 5 => ROW5
    case 6 => ROW6
    case 7 => ROW7
    case 8 => ROW8
    case 9 => ROW9
    case 10 => ROW10
    case 11 => ROW11
    case 12 => ROW12
    case 13 => ROW13
    case 14 => ROW14
    case _ => ROW15
  }

  // ---------------------------------------------------------------- the reference

  /** One step of the reflected register: divide by x, and subtract the polynomial if a bit fell out. */
  function Step(c: word): word {
    if Odd(c) then Xor(Half(c), POLYNOMIAL) else Half(c)
  }

  function Xor(a: word, b: word): word {
    a ^ b
  }

  predicate Odd(c: word) {
    c & 1 == 1
  }

  function Half(c: word): word {
    c >> 1
  }

  /** The register after one message bit. */
  function BitStep(c: word, bit: bool): word {
    Step(Xor(c, if bit then 1 else 0))
  }

  function CrcOfBits(c: word, bits: seq<bool>): word {
    if bits == [] then c else BitStep(CrcOfBits(c, bits[..|bits| - 1]), bits[|bits| - 1])
  }

  /** The n lowest bits of a byte, least significant first. */
  function BitsOf(b: word, n: nat): (bits: seq<bool>)
    ensures |bits| == n
  {
    if n == 0 then [] else [b & 1 == 1] + BitsOf(b >> 1, n - 1)
  }

  /** The bits of a message, in the order they are sent. */
  function MessageBits(p: seq<bv8>): seq<bool> {
    if p == [] then [] else MessageBits(p[..|p| - 1]) + BitsOf(p[|p| - 1] as word, 8)
  }

  /** Annex D of the PNG specification: all ones first, complemented at the end. */
  function Crc(p: seq<bv8>): word {
    Xor(CrcOfBits(0xFFFF_FFFF, MessageBits(p)), 0xFFFF_FFFF)
  }

  // ---------------------------------------------------------------- the register is linear

  function Steps(c: word, n: nat): word {
    if n == 0 then c else Step(Steps(c, n - 1))
  }

  lemma HalfXor(x: word, y: word)
    ensures Half(Xor(x, y)) == Xor(Half(x), Half(y))
    ensures Odd(Xor(x, y)) <==> Odd(x) != Odd(y)
  {
  }

  lemma XorSwap(a: word, b: word, c: word)
    ensures Xor(Xor(a, b), c) == Xor(Xor(a, c), b) == Xor(a, Xor(b, c))
  {
  }

  lemma XorSelf(a: word, b: word)
    ensures Xor(a, b) == Xor(b, a) && Xor(Xor(a, b), b) == a && Xor(a, 0) == a
  {
  }

  lemma StepLinear(x: word, y: word)
    ensures Step(Xor(x, y)) == Xor(Step(x), Step(y))
  {
    hide Xor, Half, Odd;
    var a, b, p := Half(x), Half(y), POLYNOMIAL;
    HalfXor(x, y);
    XorSwap(a, b, p);
    XorSwap(Xor(a, p), b, p);
    XorSelf(a, p);
    XorSelf(b, p);
  }

  lemma {:induction false} StepsLinear(x: word, y: word, n: nat)
    ensures Steps(Xor(x, y), n) == Xor(Steps(x, n), Steps(y, n))
  {
    hide Step, Xor;
    if n > 0 {
      StepsLinear(x, y, n - 1);
      StepLinear(Steps(x, n - 1), Steps(y, n - 1));
    }
  }

  lemma {:induction false} StepsAdd(c: word, m: nat, n: nat)
    ensures Steps(c, m + n) == Steps(Steps(c, m), n)
  {
    if n > 0 {
      StepsAdd(c, m, n - 1);
    }
  }

  // ---------------------------------------------------------------- steps on shifted registers

  lemma EvenStep(z: word)
    requires !Odd(z)
    ensures Step(z) == Half(z)
  {
  }

  lemma FourHalves(z: word)
    requires z & 0xF == 0
    ensures !Odd(z) && !Odd(Half(z)) && !Odd(Half(Half(z))) && !Odd(Half(Half(Half(z))))
    ensures Half(Half(Half(Half(z)))) == z >> 4
  {
  }

  /** Steps over zero bits only shift. */
  lemma FourZeroSteps(z: word)
    requires z & 0xF == 0
    ensures Steps(z, 4) == z >> 4
  {
    FourHalves(z);
    hide Half, Odd, Step;
    EvenStep(z);
    EvenStep(Half(z));
    EvenStep(Half(Half(z)));
    EvenStep(Half(Half(Half(z))));
    assert Steps(z, 1) == Half(z);
    assert Steps(z, 2) == Half(Half(z));
    assert Steps(z, 3) == Half(Half(Half(z)));
  }

  lemma NibbleParts(x: word)
    ensures Xor(x & 0xF, x & 0xFFFF_FFF0) == x && (x & 0xFFFF_FFF0) & 0xF == 0 && (x & 0xFFFF_FFF0) >> 4 == x >> 4
    ensures (x & 0xF) < 16
  {
  }

  /** Four steps depend on the low nibble only, apart from the shift. */
  lemma FourSteps(x: word)
    ensures Steps(x, 4) == Xor(Steps(x & 0xF, 4), x >> 4)
  {
    NibbleParts(x);
    FourZeroSteps(x & 0xFFFF_FFF0);
    StepsLinear(x & 0xF, x & 0xFFFF_FFF0, 4);
  }

  // ---------------------------------------------------------------- the tables

  lemma Below16(x: word)
    requires x < 16
    ensures x == 0 || x == 1 || x == 2 || x == 3 || x == 4 || x == 5 || x == 6 || x == 7
         || x == 8 || x == 9 || x == 10 || x == 11 || x == 12 || x == 13 || x == 14 || x == 15
    ensures x as int < 16
  {
  }

  lemma Table16Values()
    ensures Steps(0, 4) == 0x00000000
    ensures Steps(1, 4) == 0x1db71064
    ensures Steps(2, 4) == 0x3b6e20c8
    ensures Steps(3, 4) == 0x26d930ac
    ensures Steps(4, 4) == 0x76dc4190
    ensures Steps(5, 4) == 0x6b6b51f4
    ensures Steps(6, 4) == 0x4db26158
    ensures Steps(7, 4) == 0x5005713c
    ensures Steps(8, 4) == 0xedb88320
    ensures Steps(9, 4) == 0xf00f9344
    ensures Steps(10, 4) == 0xd6d6a3e8
    ensures Steps(11, 4) == 0xcb61b38c
    ensures Steps(12, 4) == 0x9b64c2b0
    ensures Steps(13, 4) == 0x86d3d2d4
    ensures Steps(14, 4) == 0xa00ae278
    ensures Steps(15, 4) == 0xbdbdf21c
  {
  }

  /** The small table holds four steps of every nibble. */
  lemma Table16Correct(x: word)
    requires x < 16
    ensures x as int < 16 && TABLE16[x as int] == Steps(x, 4)
  {
    hide Steps;
    Table16Values();
    Below16(x);
  }

  lemma Row0Values0()
    ensures Steps(0x00000000, 4) == 0x00000000
    ensures Steps(0x1db71064, 4) == 0x77073096
    ensures Steps(0x3b6e20c8, 4) == 0xee0e612c
    ensures Steps(0x26d930ac, 4) == 0x990951ba
  {
  }

  lemma Row0Values1()
    ensures Steps(0x76dc4190, 4) == 0x076dc419
    ensures Steps(0x6b6b51f4, 4) == 0x706af48f
    ensures Steps(0x4db26158, 4) == 0xe963a535
    ensures Steps(0x5005713c, 4) == 0x9e6495a3
  {
  }

  lemma Row0Values2()
    ensures Steps(0xedb88320, 4) == 0x0edb8832
    ensures Steps(0xf00f9344, 4) == 0x79dcb8a4
    ensures Steps(0xd6d6a3e8, 4) == 0xe0d5e91e
    ensures Steps(0xcb61b38c, 4) == 0x97d2d988
  {
  }

  lemma Row0Values3()
    ensures Steps(0x9b64c2b0, 4) == 0x09b64c2b
    ensures Steps(0x86d3d2d4, 4) == 0x7eb17cbd
    ensures Steps(0xa00ae278, 4) == 0xe7b82d07
    ensures Steps(0xbdbdf21c, 4) == 0x90bf1d91
  {
  }

  /** The first row of the large table holds eight steps of every nibble. */
  lemma Row0Correct(x: word)
    requires x < 16
    ensures x as int < 16 && ROW0[x as int] == Steps(x, 8)
  {
    hide Steps;
    Table16Correct(x);
    StepsAdd(x, 4, 4);
    Row0Values0();
    Row0Values1();
    Row0Values2();
    Row0Values3();
    Below16(x);
  }

  /** The first row with a word added to every entry. */
  function Shifted(base: word): (r: seq<word>)
    ensures |r| == 16
  {
    [Xor(base, ROW0[0]), Xor(base, ROW0[1]), Xor(base, ROW0[2]), Xor(base, ROW0[3]),
     Xor(base, ROW0[4]), Xor(base, ROW0[5]), Xor(base, ROW0[6]), Xor(base, ROW0[7]),
     Xor(base, ROW0[8]), Xor(base, ROW0[9]), Xor(base, ROW0[10]), Xor(base, ROW0[11]),
     Xor(base, ROW0[12]), Xor(base, ROW0[13]), Xor(base, ROW0[14]), Xor(base, ROW0[15])]
  }

  lemma ShiftedAt(base: word, j: nat)
    requires j < 16
    ensures Shifted(base)[j] == Xor(base, ROW0[j])
  {
    hide Xor;
    match j {
      case 0 =>
      case 1 =>
      case 2 =>
      case 3 =>
      case 4 =>
      case 5 =>
      case 6 =>
      case 7 =>
      case 8 =>
      case 9 =>
      case 10 =>
      case 11 =>
      case 12 =>
      case 13 =>
      case 14 =>
      case 15 =>
    }
  }

  lemma Row0Shifted()
    ensures ROW0 == Shifted(TABLE16[0])
  {
  }

  lemma Row1Shifted()
    ensures ROW1 == Shifted(TABLE16[1])
  {
  }

  lemma Row2Shifted()
    ensures ROW2 == Shifted(TABLE16[2])
  {
  }

  lemma Row3Shifted()
    ensures ROW3 == Shifted(TABLE16[3])
  {
  }

  lemma Row4Shifted()
    ensures ROW4 == Shifted(TABLE16[4])
  {
  }

  lemma Row5Shifted()
    ensures ROW5 == Shifted(TABLE16[5])
  {
  }

  lemma Row6Shifted()
    ensures ROW6 == Shifted(TABLE16[6])
  {
  }

  lemma Row7Shifted()
    ensures ROW7 == Shifted(TABLE16[7])
  {
  }

  lemma Row8Shifted()
    ensures ROW8 == Shifted(TABLE16[8])
  {
  }

  lemma Row9Shifted()
    ensures ROW9 == Shifted(TABLE16[9])
  {
  }

  lemma Row10Shifted()
    ensures ROW10 == Shifted(TABLE16[10])
  {
  }

  lemma Row11Shifted()
    ensures ROW11 == Shifted(TABLE16[11])
  {
  }

  lemma Row12Shifted()
    ensures ROW12 == Shifted(TABLE16[12])
  {
  }

  lemma Row13Shifted()
    ensures ROW13 == Shifted(TABLE16[13])
  {
  }

  lemma Row14Shifted()
    ensures ROW14 == Shifted(TABLE16[14])
  {
  }

  lemma Row15Shifted()
    ensures ROW15 == Shifted(TABLE16[15])
  {
  }

  /** Every row adds the small table's entry for the high nibble to the first one. */
  lemma RowCorrect(h: nat, j: nat)
    requires h < 16 && j < 16
    ensures |Row(h)| == 16 && Row(h)[j] == Xor(TABLE16[h], ROW0[j])
  {
    hide Xor, Shifted;
    match h {
      case 0 => Row0Shifted();
      case 1 => Row1Shifted();
      case 2 => Row2Shifted();
      case 3 => Row3Shifted();
      case 4 => Row4Shifted();
      case 5 => Row5Shifted();
      case 6 => Row6Shifted();
      case 7 => Row7Shifted();
      case 8 => Row8Shifted();
      case 9 => Row9Shifted();
      case 10 => Row10Shifted();
      case 11 => Row11Shifted();
      case 12 => Row12Shifted();
      case 13 => Row13Shifted();
      case 14 => Row14Shifted();
      case 15 => Row15Shifted();
    }
    ShiftedAt(TABLE16[h], j);
  }

  lemma ByteParts(i: word)
    requires i < 256
    ensures i >> 4 < 16 && i & 0xF < 16 && i == Xor(i & 0xF, (i >> 4) << 4)
    ensures ((i >> 4) << 4) & 0xF == 0 && ((i >> 4) << 4) >> 4 == i >> 4
  {
  }

  /** The large table's entry for a byte. */
  function Lookup256(i: word): word
    requires i < 256
  {
    ByteParts(i);
    Below16(i >> 4);
    Below16(i & 0xF);
    RowCorrect((i >> 4) as int, (i & 0xF) as int);
    Row((i >> 4) as int)[(i & 0xF) as int]
  }

  lemma LookupParts(i: word)
    requires i < 256
    ensures i >> 4 < 16 && i & 0xF < 16 && Lookup256(i) == Xor(Steps(i >> 4, 4), Steps(i & 0xF, 8))
  {
    hide Steps, Xor;
    ByteParts(i);
    Below16(i >> 4);
    Below16(i & 0xF);
    RowCorrect((i >> 4) as int, (i & 0xF) as int);
    Table16Correct(i >> 4);
    Row0Correct(i & 0xF);
  }

  /** It holds eight steps of every byte. */
  lemma Table256Correct(i: word)
    requires i < 256
    ensures Lookup256(i) == Steps(i, 8)
  {
    LookupParts(i);
    EightSteps(i);
  }

  lemma EightSteps(i: word)
    requires i < 256
    ensures Xor(Steps(i >> 4, 4), Steps(i & 0xF, 8)) == Steps(i, 8)
  {
    hide Steps, Xor;
    ByteParts(i);
    var hi, lo := i >> 4, i & 0xF;
    StepsLinear(lo, hi << 4, 8);
    StepsAdd(hi << 4, 4, 4);
    FourZeroSteps(hi << 4);
    XorSelf(Steps(hi, 4), Steps(lo, 8));
  }

  // ---------------------------------------------------------------- one byte

  lemma {:induction false} CrcOfConcat(c: word, a: seq<bool>, b: seq<bool>)
    ensures CrcOfBits(c, a + b) == CrcOfBits(CrcOfBits(c, a), b)
  {
    hide BitStep;
    if b == [] {
      assert a + b == a;
    } else {
      CrcOfConcat(c, a, b[..|b| - 1]);
      assert (a + b)[..|a + b| - 1] == a + b[..|b| - 1];
    }
  }

  lemma CrcOfBit(c: word, bit: bool)
    ensures CrcOfBits(c, [bit]) == BitStep(c, bit)
  {
    assert CrcOfBits(c, []) == c;
    hide BitStep;
  }

  /** b has no more than n bits. */
  predicate Narrow(b: word, n: nat) {
    if n == 0 then b == 0 else Narrow(Half(b), n - 1)
  }

  lemma LowBitParts(b: word)
    ensures var low: word := if Odd(b) then 1 else 0; var rest := b & 0xFFFF_FFFE;
      b == Xor(low, rest) && !Odd(rest) && Half(rest) == Half(b)
  {
  }

  /** Feeding n bits one by one is adding them all at once and stepping n times. */
  lemma {:induction false} BitsAtOnce(c: word, b: word, n: nat)
    requires Narrow(b, n)
    ensures CrcOfBits(c, BitsOf(b, n)) == Steps(Xor(c, b), n)
    decreases n
  {
    if n == 0 {
      XorSelf(c, 0);
      assert CrcOfBits(c, []) == c;
    } else {
      var low: word := if Odd(b) then 1 else 0;
      var rest := b & 0xFFFF_FFFE;
      LowBitParts(b);
      BitsFirst(b, n);
      hide Xor, Step, Odd, Half, BitsOf, CrcOfBits;
      CrcOfConcat(c, [Odd(b)], BitsOf(Half(b), n - 1));
      CrcOfBit(c, Odd(b));
      BitsAtOnce(Step(Xor(c, low)), Half(b), n - 1);
      XorSwap(c, low, rest);
      StepLinear(Xor(c, low), rest);
      EvenStep(rest);
      StepsAdd(Xor(c, b), 1, n - 1);
      assert Steps(Xor(c, b), 1) == Step(Xor(c, b)) by { assert Steps(Xor(c, b), 0) == Xor(c, b); }
    }
  }

  lemma BitsFirst(b: word, n: nat)
    requires n > 0
    ensures BitsOf(b, n) == [Odd(b)] + BitsOf(Half(b), n - 1)
  {
  }

  lemma ByteNarrow(b: bv8)
    ensures Narrow(b as word, 8)
  {
    var b0 := b as word;
    EightHalves(b0);
    hide Half;
    var b1 := Half(b0);
    var b2 := Half(b1);
    var b3 := Half(b2);
    var b4 := Half(b3);
    var b5 := Half(b4);
    var b6 := Half(b5);
    var b7 := Half(b6);
    assert Narrow(b7, 1) && Narrow(b6, 2);
    assert Narrow(b5, 3) && Narrow(b4, 4);
    assert Narrow(b3, 5) && Narrow(b2, 6);
    assert Narrow(b1, 7);
  }

  lemma EightHalves(b: word)
    requires b < 256
    ensures Half(Half(Half(Half(Half(Half(Half(Half(b)))))))) == 0
  {
  }

  /** The register after a message and one more byte. */
  lemma CrcNextByte(c: word, p: seq<bv8>, i: nat)
    requires i < |p|
    ensures CrcOfBits(c, MessageBits(p[..i + 1])) ==
            Steps(Xor(CrcOfBits(c, MessageBits(p[..i])), p[i] as word), 8)
  {
    assert p[..i + 1][..i] == p[..i];
    hide CrcOfBits, BitsOf, Steps, Xor;
    var b := p[i] as word;
    CrcOfConcat(c, MessageBits(p[..i]), BitsOf(b, 8));
    ByteNarrow(p[i]);
    BitsAtOnce(CrcOfBits(c, MessageBits(p[..i])), b, 8);
  }

  lemma HighParts(c: word, b: word)
    requires b < 256
    ensures var x := Xor(c, b);
      && Xor(x & 0xFF, x & 0xFFFF_FF00) == x && (x & 0xFF) < 256
      && (x & 0xFFFF_FF00) & 0xF == 0 && ((x & 0xFFFF_FF00) >> 4) & 0xF == 0
      && ((x & 0xFFFF_FF00) >> 4) >> 4 == c >> 8
  {
  }

  /** One step of the table-driven loop over bytes. */
  lemma LongStep(c: word, b: word)
    requires b < 256
    ensures (Xor(c, b) & 0xFF) < 256
    ensures Xor(Lookup256(Xor(c, b) & 0xFF), c >> 8) == Steps(Xor(c, b), 8)
  {
    HighParts(c, b);
    var x := Xor(c, b);
    var high := x & 0xFFFF_FF00;
    Table256Correct(x & 0xFF);
    hide Xor, Steps, Lookup256;
    StepsLinear(x & 0xFF, high, 8);
    StepsAdd(high, 4, 4);
    FourZeroSteps(high);
    FourZeroSteps(high >> 4);
  }

  function Low(c: word): (r: word)
    ensures r < 16
  {
    c & 0xF
  }

  function High(c: word): word {
    c >> 4
  }

  /** The small table's entry for a nibble. */
  function Lookup16(i: word): word
    requires i < 16
  {
    Below16(i);
    TABLE16[i as int]
  }

  lemma NibbleShift(c: word, n: word)
    requires n < 16
    ensures High(Xor(c, n)) == High(c)
  {
  }

  lemma FourStepsByTable(x: word)
    ensures Steps(x, 4) == Xor(Lookup16(Low(x)), High(x))
  {
    Table16Correct(Low(x));
    FourSteps(x);
    hide Xor, Steps;
  }

  /** Adding a nibble and looking up the low nibble is four steps. */
  lemma NibbleStep(c: word, n: word)
    requires n < 16
    ensures Xor(Lookup16(Low(Xor(c, n))), High(c)) == Steps(Xor(c, n), 4)
  {
    hide Xor, Steps, High, Low, Lookup16;
    NibbleShift(c, n);
    FourStepsByTable(Xor(c, n));
  }

  /** The high nibble of a byte, still in its place. */
  function Upper(b: word): word {
    b & 0xF0
  }

  lemma Nibbles(c: word, b: word)
    requires b < 256
    ensures Low(b) < 16 && High(b) < 16
    ensures Xor(Xor(c, Low(b)), Upper(b)) == Xor(c, b)
  {
  }

  lemma UpperSteps(b: word)
    requires b < 256
    ensures Steps(Upper(b), 4) == High(b)
  {
    FourZeroSteps(Upper(b));
    hide Steps;
  }

  /** One step of the loop over nibbles. */
  lemma ShortStep(c: word, b: word)
    requires b < 256
    ensures High(b) < 16
    ensures var d := Xor(Lookup16(Low(Xor(c, Low(b)))), High(c));
      Xor(Lookup16(Low(Xor(d, High(b)))), High(d)) == Steps(Xor(c, b), 8)
  {
    hide Xor, Steps, Lookup16, Low, High, Upper;
    Nibbles(c, b);
    var x := Xor(c, Low(b));
    NibbleStep(c, Low(b));
    NibbleStep(Steps(x, 4), High(b));
    StepsLinear(x, Upper(b), 4);
    UpperSteps(b);
    StepsAdd(Xor(c, b), 4, 4);
  }

  // ---------------------------------------------------------------- the loops

  method Short(p: seq<bv8>) returns (crc: word)
    ensures crc == Crc(p)
  {
    hide Xor, Lookup16, CrcOfBits, MessageBits, Steps, Low, High;
    crc := 0xFFFF_FFFF;
    var i := 0;
    EmptyMessage(crc);
    while i < |p|
      invariant 0 <= i <= |p| && crc == CrcOfBits(0xFFFF_FFFF, MessageBits(p[..i]))
    {
      var c := p[i] as word;
      CrcNextByte(0xFFFF_FFFF, p, i);
      ByteBelow(p[i]);
      ShortStep(crc, c);
      crc := Xor(Lookup16(Low(Xor(crc, Low(c)))), High(crc));
      crc := Xor(Lookup16(Low(Xor(crc, High(c)))), High(crc));
      i := i + 1;
    }
    assert p[..|p|] == p;
    crc := Xor(crc, 0xFFFF_FFFF);
  }

  lemma EmptyMessage(c: word)
    ensures CrcOfBits(c, MessageBits([])) == c
  {
  }

  lemma ByteBelow(b: bv8)
    ensures b as word < 256
  {
  }

  method Long(p: seq<bv8>) returns (crc: word)
    ensures crc == Crc(p)
  {
    hide Xor, Lookup256, CrcOfBits, MessageBits, Steps;
    crc := 0xFFFF_FFFF;
    var i := 0;
    EmptyMessage(crc);
    while i < |p|
      invariant 0 <= i <= |p| && crc == CrcOfBits(0xFFFF_FFFF, MessageBits(p[..i]))
    {
      CrcNextByte(0xFFFF_FFFF, p, i);
      ByteBelow(p[i]);
      LongStep(crc, p[i] as word);
      crc := Xor(Lookup256(Xor(crc, p[i] as word) & 0xFF), crc >> 8);
      i := i + 1;
    }
    assert p[..|p|] == p;
    crc := Xor(crc, 0xFFFF_FFFF);
  }

  /** A register that is updated piece by piece. */
  class Register {
    var crc: word

    constructor ()
      ensures crc == 0xFFFF_FFFF
    {
      crc := 0xFFFF_FFFF;
    }

    method Update(p: seq<bv8>)
      modifies this
      ensures crc == CrcOfBits(old(crc), MessageBits(p))
    {
      hide Xor, Lookup256, CrcOfBits, MessageBits, Steps;
      var c := crc;
      var i := 0;
      EmptyMessage(c);
      while i < |p|
        invariant 0 <= i <= |p| && c == CrcOfBits(old(crc), MessageBits(p[..i])) && crc == old(crc)
      {
        CrcNextByte(old(crc), p, i);
        ByteBelow(p[i]);
        LongStep(c, p[i] as word);
        c := Xor(Lookup256(Xor(c, p[i] as word) & 0xFF), c >> 8);
        i := i + 1;
      }
      assert p[..|p|] == p;
      crc := c;
    }

    method Final()
      modifies this
      ensures crc == Xor(old(crc), 0xFFFF_FFFF)
    {
      crc := Xor(crc, 0xFFFF_FFFF);
    }
  }

  lemma {:induction false} BitsOfConcat(p: seq<bv8>, q: seq<bv8>)
    ensures MessageBits(p + q) == MessageBits(p) + MessageBits(q)
  {
    hide BitsOf;
    if q == [] {
      assert p + q == p;
    } else {
      BitsOfConcat(p, q[..|q| - 1]);
      assert (p + q)[..|p + q| - 1] == p + q[..|q| - 1];
    }
  }

  /** Updating with two pieces is updating with their concatenation. */
  lemma UpdateInPieces(c: word, p: seq<bv8>, q: seq<bv8>)
    ensures CrcOfBits(c, MessageBits(p + q)) == CrcOfBits(CrcOfBits(c, MessageBits(p)), MessageBits(q))
  {
    BitsOfConcat(p, q);
    CrcOfConcat(c, MessageBits(p), MessageBits(q));
  }

  // ---------------------------------------------------------------- error detection

  lemma StepInjective(x: word, y: word)
    requires Step(x) == Step(y)
    ensures x == y
  {
  }

  lemma {:induction false} StepsInjective(x: word, y: word, n: nat)
    requires Steps(x, n) == Steps(y, n)
    ensures x == y
  {
    hide Step;
    if n > 0 {
      StepInjective(Steps(x, n - 1), Steps(y, n - 1));
      StepsInjective(x, y, n - 1);
    }
  }

  /** Different registers stay different over the same bits. */
  lemma {:induction false} RegisterInjective(x: word, y: word, bits: seq<bool>)
    requires CrcOfBits(x, bits) == CrcOfBits(y, bits)
    ensures x == y
  {
    hide Step, Xor;
    if bits != [] {
      var b: word := if bits[|bits| - 1] then 1 else 0;
      var x', y' := CrcOfBits(x, bits[..|bits| - 1]), CrcOfBits(y, bits[..|bits| - 1]);
      StepInjective(Xor(x', b), Xor(y', b));
      XorSelf(x', b);
      XorSelf(y', b);
      RegisterInjective(x, y, bits[..|bits| - 1]);
    }
  }

  lemma ByteInjective(c: word, a: bv8, b: bv8)
    requires Xor(c, a as word) == Xor(c, b as word)
    ensures a == b
  {
  }

  /** A message with one byte changed, in any way and anywhere, has another checksum. */
  lemma OneByteDetected(p: seq<bv8>, a: bv8, b: bv8, q: seq<bv8>)
    requires a != b
    ensures Crc(p + [a] + q) != Crc(p + [b] + q)
  {
    hide CrcOfBits, MessageBits, Xor, Steps;
    var c := CrcOfBits(0xFFFF_FFFF, MessageBits(p));
    var x, y := Steps(Xor(c, a as word), 8), Steps(Xor(c, b as word), 8);
    AfterByte(p, a, q);
    AfterByte(p, b, q);
    if Crc(p + [a] + q) == Crc(p + [b] + q) {
      XorSelf(CrcOfBits(x, MessageBits(q)), 0xFFFF_FFFF);
      XorSelf(CrcOfBits(y, MessageBits(q)), 0xFFFF_FFFF);
      RegisterInjective(x, y, MessageBits(q));
      StepsInjective(Xor(c, a as word), Xor(c, b as word), 8);
      ByteInjective(c, a, b);
    }
  }

  lemma AfterByte(p: seq<bv8>, a: bv8, q: seq<bv8>)
    ensures var c := CrcOfBits(0xFFFF_FFFF, MessageBits(p));
      CrcOfBits(0xFFFF_FFFF, MessageBits(p + [a] + q)) ==
      CrcOfBits(Steps(Xor(c, a as word), 8), MessageBits(q))
  {
    hide CrcOfBits, MessageBits, Xor, Steps;
    UpdateInPieces(0xFFFF_FFFF, p + [a], q);
    CrcNextByte(0xFFFF_FFFF, p + [a], |p|);
    assert (p + [a])[..|p|] == p && (p + [a])[..|p| + 1] == p + [a];
  }
}
