/** The 32-bit frame check sequence of IEEE Std 802.11 (athr-hostap/wlantest/crc32.c).

    The specification is schoolbook long division of bit polynomials over GF(2).
    Between it and the byte-and-table loop of the program stands a shift register that
    takes one bit at a time; every result below is a fact about that register. */
module Crc32 {

  import opened Bits

  type Byte = bv8

  // ----- Long division of polynomials over GF(2) -----

  /** A polynomial is the sequence of its coefficients, highest power first. */
  type Polynomial = seq<bool>

  /** The exponents of G(x), as the comment above the table lists them. */
  predicate InGenerator(exponent: int) {
    exponent in {32, 26, 23, 22, 16, 12, 11, 10, 8, 7, 5, 4, 2, 1, 0}
  }

  /** G(x) itself, of degree 32. */
  function Generator(): (g: Polynomial)
    ensures |g| == 33
  {
    seq(33, k => InGenerator(32 - k))
  }

  function Zeros(n: nat): (p: Polynomial)
    ensures |p| == n
  {
    seq(n, k => false)
  }

  function Ones(n: nat): (p: Polynomial)
    ensures |p| == n
  {
    seq(n, k => true)
  }

  /** Addition of polynomials given with equally many coefficients. */
  function Sum(p: Polynomial, q: Polynomial): (r: Polynomial)
    requires |p| == |q|
    ensures |r| == |p|
  {
    seq(|p|, k requires 0 <= k < |p| => p[k] != q[k])
  }

  function Complement(p: Polynomial): (r: Polynomial)
    ensures |r| == |p|
  {
    seq(|p|, k requires 0 <= k < |p| => !p[k])
  }

  /** One step of long division: subtract G(x), aligned with the leading term, if that term is there. */
  function Cancel(p: Polynomial): (r: Polynomial)
    requires |p| > 32
    ensures |r| == |p| - 1
  {
    seq(|p| - 1, k requires 0 <= k < |p| - 1 => p[k + 1] != (p[0] && k < 32 && InGenerator(31 - k)))
  }

  /** The remainder of p(x) divided by G(x). */
  function Remainder(p: Polynomial): (r: Polynomial)
    requires |p| >= 32
    ensures |r| == 32
    decreases |p|
  {
    if |p| == 32 then p else Remainder(Cancel(p))
  }

  /** The quotient of the same division. */
  function Quotient(p: Polynomial): (q: Polynomial)
    requires |p| >= 32
    ensures |q| == |p| - 32
    decreases |p|
  {
    if |p| == 32 then [] else [p[0]] + Quotient(Cancel(p))
  }

  /** The product q(x) * G(x). */
  function TimesGenerator(q: Polynomial): (p: Polynomial)
    ensures |p| == |q| + 32
  {
    if q == [] then Zeros(32)
    else Sum(if q[0] then Generator() + Zeros(|q| - 1) else Zeros(|q| + 32),
             [false] + TimesGenerator(q[1..]))
  }

  lemma CancelStep(p: Polynomial, m: Polynomial, r: Polynomial)
    requires |p| > 32 && |m| == |p| - 1 && |r| == 32
    requires Cancel(p) == Sum(m, Zeros(|p| - 33) + r)
    ensures p == Sum(Sum(if p[0] then Generator() + Zeros(|p| - 33) else Zeros(|p|), [false] + m),
                     Zeros(|p| - 32) + r)
  {
    var g := if p[0] then Generator() + Zeros(|p| - 33) else Zeros(|p|);
    assert g[0] == p[0];
    forall k | 1 <= k < |p|
      ensures p[k] == ((g[k] != m[k - 1]) != (Zeros(|p| - 32) + r)[k])
    {
      assert Cancel(p)[k - 1] == (m[k - 1] != (Zeros(|p| - 33) + r)[k - 1]);
      assert (Zeros(|p| - 33) + r)[k - 1] == (Zeros(|p| - 32) + r)[k];
    }
  }

  /** Quotient and Remainder are what their names say: p = q * G + r with deg r < 32. */
  lemma {:induction false} DivisionAlgorithm(p: Polynomial)
    requires |p| >= 32
    ensures p == Sum(TimesGenerator(Quotient(p)), Zeros(|p| - 32) + Remainder(p))
    decreases |p|
  {
    if |p| == 32 {
      assert Sum(Zeros(32), [] + p) == p;
    } else {
      var c := Cancel(p);
      DivisionAlgorithm(c);
      assert Quotient(p)[1..] == Quotient(c);
      CancelStep(p, TimesGenerator(Quotient(c)), Remainder(c));
    }
  }

  // ----- The frame check sequence as the standard defines it -----

  /** The n low bits of a word, least significant first: the order of transmission. */
  function WordBits(w: bv32, n: nat): (bits: seq<bool>)
    ensures |bits| == n
  {
    seq(n, k requires 0 <= k < n => Bit(w, k))
  }

  function ByteBits(b: Byte): (bits: seq<bool>)
    ensures |bits| == 8
  {
    WordBits(b as bv32, 8)
  }

  function FrameBits(frame: seq<Byte>): (bits: seq<bool>)
    ensures |bits| == 8 * |frame|
  {
    if frame == [] then []
    else FrameBits(frame[..|frame| - 1]) + ByteBits(frame[|frame| - 1])
  }

  /** Complement of the remainder of x^k * (x^31 + ... + 1) + x^32 * M(x), where M(x) has k
      coefficients (section 7.1.3.7 of IEEE Std 802.11-2007). */
  function FrameCheckSequence(m: Polynomial): (fcs: Polynomial)
    ensures |fcs| == 32
  {
    Complement(Remainder(Sum(Ones(32) + Zeros(|m|), m + Zeros(32))))
  }

  // ----- The shift register: division one bit at a time -----

  type Register = r: seq<bool> | |r| == 32 witness Zeros(32)

  function FeedBit(r: Register, bit: bool): Register {
    seq(32, k requires 0 <= k < 32 => (k < 31 && r[k + 1]) != ((r[0] != bit) && InGenerator(31 - k)))
  }

  function Feed(r: Register, bits: seq<bool>): Register
    decreases |bits|
  {
    if bits == [] then r else Feed(FeedBit(r, bits[0]), bits[1..])
  }

  lemma {:induction false} FeedAppend(r: Register, u: seq<bool>, v: seq<bool>)
    ensures Feed(r, u + v) == Feed(Feed(r, u), v)
    decreases |u|
  {
    if u == [] {
      assert u + v == v;
    } else {
      assert (u + v)[1..] == u[1..] + v;
      FeedAppend(FeedBit(r, u[0]), u[1..], v);
    }
  }

  /** The register holds the remainder of everything fed to it. */
  lemma {:induction false} FeedDivides(r: Register, m: seq<bool>)
    ensures Feed(r, m) == Remainder(Sum(r + Zeros(|m|), m + Zeros(32)))
    decreases |m|
  {
    var p := Sum(r + Zeros(|m|), m + Zeros(32));
    if m == [] {
      assert p == r;
    } else {
      FeedDivides(FeedBit(r, m[0]), m[1..]);
      FeedCancels(r, m);
    }
  }

  /** Feeding one bit is one step of the division. */
  lemma FeedCancels(r: Register, m: seq<bool>)
    requires m != []
    ensures Cancel(Sum(r + Zeros(|m|), m + Zeros(32)))
         == Sum(FeedBit(r, m[0]) + Zeros(|m| - 1), m[1..] + Zeros(32))
  {
    hide InGenerator;
  }

  lemma {:induction false} FeedIsLinear(r: Register, s: Register, u: seq<bool>, v: seq<bool>)
    requires |u| == |v|
    ensures Feed(Sum(r, s), Sum(u, v)) == Sum(Feed(r, u), Feed(s, v))
    decreases |u|
  {
    if u == [] {
      assert Sum(u, v) == [];
    } else {
      var d := FeedBit(Sum(r, s), Sum(u, v)[0]);
      assert d == Sum(FeedBit(r, u[0]), FeedBit(s, v[0]));
      assert Sum(u, v)[1..] == Sum(u[1..], v[1..]);
      FeedIsLinear(FeedBit(r, u[0]), FeedBit(s, v[0]), u[1..], v[1..]);
    }
  }

  lemma FeedBitInjective(r: Register, s: Register, bit: bool)
    requires FeedBit(r, bit) == FeedBit(s, bit)
    ensures r == s
  {
    assert FeedBit(r, bit)[31] == FeedBit(s, bit)[31];
    forall k | 1 <= k < 32
      ensures r[k] == s[k]
    {
      assert FeedBit(r, bit)[k - 1] == FeedBit(s, bit)[k - 1];
    }
  }

  /** Equal input never makes two different registers meet. */
  lemma {:induction false} FeedInjective(r: Register, s: Register, bits: seq<bool>)
    requires Feed(r, bits) == Feed(s, bits)
    ensures r == s
    decreases |bits|
  {
    if bits != [] {
      FeedInjective(FeedBit(r, bits[0]), FeedBit(s, bits[0]), bits[1..]);
      FeedBitInjective(r, s, bits[0]);
    }
  }

  /** Up to 32 bits may be added to the register at once instead of being fed one by one. */
  lemma {:induction false} FeedAsSum(r: Register, u: seq<bool>)
    requires |u| <= 32
    ensures Feed(r, u) == Feed(Sum(r, u + Zeros(32 - |u|)), Zeros(|u|))
    decreases |u|
  {
    var whole := u + Zeros(32 - |u|);
    if u == [] {
      assert Sum(r, whole) == r;
    } else {
      var rest := u[1..];
      var padded := rest + Zeros(32 - |rest|);
      FeedAsSum(FeedBit(r, u[0]), rest);
      assert FeedBit(Sum(r, whole), false) == Sum(FeedBit(r, u[0]), padded);
      assert Zeros(|u|)[1..] == Zeros(|rest|);
    }
  }

  /** A burst of at most 32 bits always shows in the register. */
  lemma BurstChangesRegister(r: Register, u: seq<bool>, v: seq<bool>)
    requires |u| == |v| <= 32
    requires Feed(r, u) == Feed(r, v)
    ensures u == v
  {
    FeedAsSum(r, u);
    FeedAsSum(r, v);
    var x, y := u + Zeros(32 - |u|), v + Zeros(32 - |v|);
    FeedInjective(Sum(r, x), Sum(r, y), Zeros(|u|));
    forall k | 0 <= k < |u|
      ensures u[k] == v[k]
    {
      assert Sum(r, x)[k] == Sum(r, y)[k];
    }
  }

  /** Bits below the first one only move down. */
  lemma {:induction false} FeedZeros(r: Register, n: nat)
    requires n <= 32
    requires forall k :: 0 <= k < n ==> !r[k]
    ensures Feed(r, Zeros(n)) == r[n..] + Zeros(n)
    decreases n
  {
    if n > 0 {
      var s := FeedBit(r, false);
      assert s == r[1..] + [false];
      assert Zeros(n)[1..] == Zeros(n - 1);
      FeedZeros(s, n - 1);
      assert s[n - 1..] + Zeros(n - 1) == r[n..] + Zeros(n);
    }
  }

  // ----- The table and the loop of the program -----

  const ROW_0: seq<bv32> := [
    0x00000000, 0x77073096, 0xee0e612c, 0x990951ba, 0x076dc419, 0x706af48f, 0xe963a535, 0x9e6495a3,
    0x0edb8832, 0x79dcb8a4, 0xe0d5e91e, 0x97d2d988, 0x09b64c2b, 0x7eb17cbd, 0xe7b82d07, 0x90bf1d91]
  const ROW_1: seq<bv32> := [
    0x1db71064, 0x6ab020f2, 0xf3b97148, 0x84be41de, 0x1adad47d, 0x6ddde4eb, 0xf4d4b551, 0x83d385c7,
    0x136c9856, 0x646ba8c0, 0xfd62f97a, 0x8a65c9ec, 0x14015c4f, 0x63066cd9, 0xfa0f3d63, 0x8d080df5]
  const ROW_2: seq<bv32> := [
    0x3b6e20c8, 0x4c69105e, 0xd56041e4, 0xa2677172, 0x3c03e4d1, 0x4b04d447, 0xd20d85fd, 0xa50ab56b,
    0x35b5a8fa, 0x42b2986c, 0xdbbbc9d6, 0xacbcf940, 0x32d86ce3, 0x45df5c75, 0xdcd60dcf, 0xabd13d59]
  const ROW_3: seq<bv32> := [
    0x26d930ac, 0x51de003a, 0xc8d75180, 0xbfd06116, 0x21b4f4b5, 0x56b3c423, 0xcfba9599, 0xb8bda50f,
    0x2802b89e, 0x5f058808, 0xc60cd9b2, 0xb10be924, 0x2f6f7c87, 0x58684c11, 0xc1611dab, 0xb6662d3d]
  const ROW_4: seq<bv32> := [
    0x76dc4190, 0x01db7106, 0x98d220bc, 0xefd5102a, 0x71b18589, 0x06b6b51f, 0x9fbfe4a5, 0xe8b8d433,
    0x7807c9a2, 0x0f00f934, 0x9609a88e, 0xe10e9818, 0x7f6a0dbb, 0x086d3d2d, 0x91646c97, 0xe6635c01]
  const ROW_5: seq<bv32> := [
    0x6b6b51f4, 0x1c6c6162, 0x856530d8, 0xf262004e, 0x6c0695ed, 0x1b01a57b, 0x8208f4c1, 0xf50fc457,
    0x65b0d9c6, 0x12b7e950, 0x8bbeb8ea, 0xfcb9887c, 0x62dd1ddf, 0x15da2d49, 0x8cd37cf3, 0xfbd44c65]
  const ROW_6: seq<bv32> := [
    0x4db26158, 0x3ab551ce, 0xa3bc0074, 0xd4bb30e2, 0x4adfa541, 0x3dd895d7, 0xa4d1c46d, 0xd3d6f4fb,
    0x4369e96a, 0x346ed9fc, 0xad678846, 0xda60b8d0, 0x44042d73, 0x33031de5, 0xaa0a4c5f, 0xdd0d7cc9]
  const ROW_7: seq<bv32> := [
    0x5005713c, 0x270241aa, 0xbe0b1010, 0xc90c2086, 0x5768b525, 0x206f85b3, 0xb966d409, 0xce61e49f,
    0x5edef90e, 0x29d9c998, 0xb0d09822, 0xc7d7a8b4, 0x59b33d17, 0x2eb40d81, 0xb7bd5c3b, 0xc0ba6cad]
  const ROW_8: seq<bv32> := [
    0xedb88320, 0x9abfb3b6, 0x03b6e20c, 0x74b1d29a, 0xead54739, 0x9dd277af, 0x04db2615, 0x73dc1683,
    0xe3630b12, 0x94643b84, 0x0d6d6a3e, 0x7a6a5aa8, 0xe40ecf0b, 0x9309ff9d, 0x0a00ae27, 0x7d079eb1]
  const ROW_9: seq<bv32> := [
    0xf00f9344, 0x8708a3d2, 0x1e01f268, 0x6906c2fe, 0xf762575d, 0x806567cb, 0x196c3671, 0x6e6b06e7,
    0xfed41b76, 0x89d32be0, 0x10da7a5a, 0x67dd4acc, 0xf9b9df6f, 0x8ebeeff9, 0x17b7be43, 0x60b08ed5]
  const ROW_A: seq<bv32> := [
    0xd6d6a3e8, 0xa1d1937e, 0x38d8c2c4, 0x4fdff252, 0xd1bb67f1, 0xa6bc5767, 0x3fb506dd, 0x48b2364b,
    0xd80d2bda, 0xaf0a1b4c, 0x36034af6, 0x41047a60, 0xdf60efc3, 0xa867df55, 0x316e8eef, 0x4669be79]
  const ROW_B: seq<bv32> := [
    0xcb61b38c, 0xbc66831a, 0x256fd2a0, 0x5268e236, 0xcc0c7795, 0xbb0b4703, 0x220216b9, 0x5505262f,
    0xc5ba3bbe, 0xb2bd0b28, 0x2bb45a92, 0x5cb36a04, 0xc2d7ffa7, 0xb5d0cf31, 0x2cd99e8b, 0x5bdeae1d]
  const ROW_C: seq<bv32> := [
    0x9b64c2b0, 0xec63f226, 0x756aa39c, 0x026d930a, 0x9c0906a9, 0xeb0e363f, 0x72076785, 0x05005713,
    0x95bf4a82, 0xe2b87a14, 0x7bb12bae, 0x0cb61b38, 0x92d28e9b, 0xe5d5be0d, 0x7cdcefb7, 0x0bdbdf21]
  const ROW_D: seq<bv32> := [
    0x86d3d2d4, 0xf1d4e242, 0x68ddb3f8, 0x1fda836e, 0x81be16cd, 0xf6b9265b, 0x6fb077e1, 0x18b74777,
    0x88085ae6, 0xff0f6a70, 0x66063bca, 0x11010b5c, 0x8f659eff, 0xf862ae69, 0x616bffd3, 0x166ccf45]
  const ROW_E: seq<bv32> := [
    0xa00ae278, 0xd70dd2ee, 0x4e048354, 0x3903b3c2, 0xa7672661, 0xd06016f7, 0x4969474d, 0x3e6e77db,
    0xaed16a4a, 0xd9d65adc, 0x40df0b66, 0x37d83bf0, 0xa9bcae53, 0xdebb9ec5, 0x47b2cf7f, 0x30b5ffe9]
  const ROW_F: seq<bv32> := [
    0xbdbdf21c, 0xcabac28a, 0x53b39330, 0x24b4a3a6, 0xbad03605, 0xcdd70693, 0x54de5729, 0x23d967bf,
    0xb3667a2e, 0xc4614ab8, 0x5d681b02, 0x2a6f2b94, 0xb40bbe37, 0xc30c8ea1, 0x5a05df1b, 0x2d02ef8d]

  /** crc32_table, in sixteen rows of sixteen entries. */
  const CRC32_TABLE: seq<seq<bv32>> := [
    ROW_0, ROW_1, ROW_2, ROW_3, ROW_4, ROW_5, ROW_6, ROW_7,
    ROW_8, ROW_9, ROW_A, ROW_B, ROW_C, ROW_D, ROW_E, ROW_F]

  function TableEntry(i: Byte): bv32 {
    CRC32_TABLE[(i >> 4) as int][(i & 0xF) as int]
  }

  /** The register after a whole frame. */
  function FrameRegister(frame: seq<Byte>): Register {
    Feed(Ones(32), FrameBits(frame))
  }

  method LookUp(i: Byte) returns (entry: bv32)
    ensures WordBits(entry, 32) == Feed(WordBits(i as bv32, 32), Zeros(8))
  {
    TableBits(i);
    return CRC32_TABLE[(i >> 4) as int][(i & 0xF) as int];
  }

  /** One turn of the loop of crc32. */
  method Turn(crc: bv32, b: Byte) returns (next: bv32)
    ensures WordBits(next, 32) == Feed(WordBits(crc, 32), ByteBits(b))
  {
    var w := b as bv32;
    var i := (crc ^ w) & 0xFF;
    var entry := LookUp(i as Byte);
    StepBits(crc, w, i, entry);
    return entry ^ (crc >> 8);
  }

  /** crc32: the loop over the frame and the final complement. */
  method Crc32(frame: array<Byte>, len: nat) returns (value: bv32)
    requires len <= frame.Length
    ensures WordBits(value, 32) == Complement(FrameRegister(frame[..len]))
    ensures WordBits(value, 32) == FrameCheckSequence(FrameBits(frame[..len]))
  {
    hide Remainder, WordBits, Complement, Sum;
    var crc := 0xFFFF_FFFF;
    AllOnes();
    for i := 0 to len
      invariant WordBits(crc, 32) == FrameRegister(frame[..i])
    {
      FrameAppend(frame[..i], frame[i]);
      assert frame[..i + 1] == frame[..i] + [frame[i]];
      crc := Turn(crc, frame[i]);
    }
    FeedDivides(Ones(32), FrameBits(frame[..len]));
    ComplementBits(crc);
    return !crc;
  }

  // ----- The table holds eight shifts of every byte -----

  /** The shift register in a machine word; the constant is G(x) without its leading term,
      least significant bit first, and is subtracted when the low bit is set. */
  function Shift(c: bv32): bv32 {
    (c >> 1) ^ (0xEDB8_8320 & (0 - (c & 1)))
  }

  function ShiftTimes(c: bv32, n: nat): bv32
    decreases n
  {
    if n == 0 then c else ShiftTimes(Shift(c), n - 1)
  }

  lemma Row0(i: Byte)
    requires i >> 4 == 0
    ensures ROW_0[(i & 0xF) as int] == ShiftTimes(i as bv32, 8)
  {
  }

  lemma Row1(i: Byte)
    requires i >> 4 == 1
    ensures ROW_1[(i & 0xF) as int] == ShiftTimes(i as bv32, 8)
  {
  }

  lemma Row2(i: Byte)
    requires i >> 4 == 2
    ensures ROW_2[(i & 0xF) as int] == ShiftTimes(i as bv32, 8)
  {
  }

  lemma Row3(i: Byte)
    requires i >> 4 == 3
    ensures ROW_3[(i & 0xF) as int] == ShiftTimes(i as bv32, 8)
  {
  }

  lemma Row4(i: Byte)
    requires i >> 4 == 4
    ensures ROW_4[(i & 0xF) as int] == ShiftTimes(i as bv32, 8)
  {
  }

  lemma Row5(i: Byte)
    requires i >> 4 == 5
    ensures ROW_5[(i & 0xF) as int] == ShiftTimes(i as bv32, 8)
  {
  }

  lemma Row6(i: Byte)
    requires i >> 4 == 6
    ensures ROW_6[(i & 0xF) as int] == ShiftTimes(i as bv32, 8)
  {
  }

  lemma Row7(i: Byte)
    requires i >> 4 == 7
    ensures ROW_7[(i & 0xF) as int] == ShiftTimes(i as bv32, 8)
  {
  }

  lemma Row8(i: Byte)
    requires i >> 4 == 8
    ensures ROW_8[(i & 0xF) as int] == ShiftTimes(i as bv32, 8)
  {
  }

  lemma Row9(i: Byte)
    requires i >> 4 == 9
    ensures ROW_9[(i & 0xF) as int] == ShiftTimes(i as bv32, 8)
  {
  }

  lemma RowA(i: Byte)
    requires i >> 4 == 10
    ensures ROW_A[(i & 0xF) as int] == ShiftTimes(i as bv32, 8)
  {
  }

  lemma RowB(i: Byte)
    requires i >> 4 == 11
    ensures ROW_B[(i & 0xF) as int] == ShiftTimes(i as bv32, 8)
  {
  }

  lemma RowC(i: Byte)
    requires i >> 4 == 12
    ensures ROW_C[(i & 0xF) as int] == ShiftTimes(i as bv32, 8)
  {
  }

  lemma RowD(i: Byte)
    requires i >> 4 == 13
    ensures ROW_D[(i & 0xF) as int] == ShiftTimes(i as bv32, 8)
  {
  }

  lemma RowE(i: Byte)
    requires i >> 4 == 14
    ensures ROW_E[(i & 0xF) as int] == ShiftTimes(i as bv32, 8)
  {
  }

  lemma RowF(i: Byte)
    requires i >> 4 == 15
    ensures ROW_F[(i & 0xF) as int] == ShiftTimes(i as bv32, 8)
  {
  }

  lemma TableIsDivision(i: Byte)
    ensures TableEntry(i) == ShiftTimes(i as bv32, 8)
  {
    match i >> 4
    case 0 => Row0(i);
    case 1 => Row1(i);
    case 2 => Row2(i);
    case 3 => Row3(i);
    case 4 => Row4(i);
    case 5 => Row5(i);
    case 6 => Row6(i);
    case 7 => Row7(i);
    case 8 => Row8(i);
    case 9 => Row9(i);
    case 10 => RowA(i);
    case 11 => RowB(i);
    case 12 => RowC(i);
    case 13 => RowD(i);
    case 14 => RowE(i);
    case _ => RowF(i);
  }

  // ----- Words and their bits -----

  lemma AllOnes()
    ensures WordBits(0xFFFF_FFFF, 32) == Ones(32)
  {
    forall k | 0 <= k < 32
      ensures Bit(0xFFFF_FFFF, k)
    {
      OneBit(k);
    }
  }

  /** The constant of the register is G(x) below its leading term. */
  lemma GeneratorBit(k: nat)
    requires k < 32
    ensures Bit(0xEDB8_8320, k) == InGenerator(31 - k)
  {
    if k < 16 {
      match k
      case 0 => case 1 => case 2 => case 3 => case 4 => case 5 => case 6 => case 7 =>
      case 8 => case 9 => case 10 => case 11 => case 12 => case 13 => case 14 => case _ =>
    } else {
      BitAbove16(0xEDB8_8320, k - 16);
      assert Bit(0xEDB8, 15);
      match k - 16
      case 0 => case 1 => case 2 => case 3 => case 4 => case 5 => case 6 => case 7 =>
      case 8 => case 9 => case 10 => case 11 => case 12 => case 13 => case 14 => case _ =>
    }
  }

  lemma ComplementBits(c: bv32)
    ensures WordBits(!c, 32) == Complement(WordBits(c, 32))
  {
    hide Bit;
    forall k | 0 <= k < 32
      ensures Bit(!c, k) == !Bit(c, k)
    {
      NotBit(c, k);
    }
  }

  // ----- The machine word follows the register -----

  lemma ShiftFollowsRegister(c: bv32)
    ensures WordBits(Shift(c), 32) == FeedBit(WordBits(c, 32), false)
  {
    hide Bit, Shift, InGenerator;
    FirstBit(c);
    TopBit(c);
    forall k | 0 <= k < 32
      ensures WordBits(Shift(c), 32)[k] == FeedBit(WordBits(c, 32), false)[k]
    {
      ShiftBit(c, k);
      GeneratorBit(k);
      BitAbove1(c, k);
    }
  }

  lemma TopBit(c: bv32)
    ensures !Bit(c >> 1, 31)
  {
    hide Bit;
    BitAbove32(c, 0);
    BitAbove1(c, 31);
  }

  lemma ShiftCases(c: bv32)
    ensures Shift(c) == if c & 1 == 1 then (c >> 1) ^ 0xEDB8_8320 else c >> 1
  {
    var b := c & 1;
    if b == 1 {
      assert 0xEDB8_8320 & (0 - b) == 0xEDB8_8320;
    } else {
      LowBitClear(c);
      assert 0xEDB8_8320 & (0 - b) == 0;
    }
  }

  lemma LowBitClear(c: bv32)
    requires c & 1 != 1
    ensures c & 1 == 0
  {
  }

  lemma SubtractedBit(c: bv32, k: nat)
    ensures Bit((c >> 1) ^ 0xEDB8_8320, k) == (Bit(c >> 1, k) != Bit(0xEDB8_8320, k))
  {
    XorBit(k);
  }

  lemma ShiftBit(c: bv32, k: nat)
    ensures Bit(Shift(c), k) == (Bit(c >> 1, k) != (c & 1 == 1 && Bit(0xEDB8_8320, k)))
  {
    hide Bit, Shift;
    ShiftCases(c);
    SubtractedBit(c, k);
  }

  lemma {:induction false} ShiftTimesFollows(n: nat)
    ensures forall c: bv32 :: WordBits(ShiftTimes(c, n), 32) == Feed(WordBits(c, 32), Zeros(n))
  {
    if n > 0 {
      ShiftTimesFollows(n - 1);
      forall c: bv32
        ensures WordBits(ShiftTimes(c, n), 32) == Feed(WordBits(c, 32), Zeros(n))
      {
        ShiftFollowsRegister(c);
        assert WordBits(ShiftTimes(Shift(c), n - 1), 32) == Feed(WordBits(Shift(c), 32), Zeros(n - 1));
        assert Zeros(n)[1..] == Zeros(n - 1);
      }
    }
  }

  lemma SumSplit(c: Register, b: seq<bool>)
    requires |b| <= 32
    ensures Sum(c, b + Zeros(32 - |b|)) == Sum(Sum(c[..|b|], b) + Zeros(32 - |b|), Zeros(|b|) + c[|b|..])
  {
  }

  lemma SumOfZeros(n: nat)
    ensures Sum(Zeros(n), Zeros(n)) == Zeros(n)
  {
  }

  /** Feeding a few bits, split into their effect on the low bits and the move of the others. */
  lemma FeedSplit(c: Register, b: seq<bool>)
    requires |b| <= 32
    ensures Feed(c, b) == Sum(Feed(Sum(c[..|b|], b) + Zeros(32 - |b|), Zeros(|b|)), c[|b|..] + Zeros(|b|))
  {
    var n := |b|;
    var low, high := Sum(c[..n], b) + Zeros(32 - n), Zeros(n) + c[n..];
    assert high[n..] == c[n..];
    FeedAsSum(c, b);
    SumSplit(c, b);
    SumOfZeros(n);
    FeedIsLinear(low, high, Zeros(n), Zeros(n));
    FeedZeros(high, n);
  }

  lemma HighBytes(c: bv32)
    ensures WordBits(c >> 8, 32) == WordBits(c, 32)[8..] + Zeros(8)
  {
    forall k | 0 <= k < 32
      ensures WordBits(c >> 8, 32)[k] == (WordBits(c, 32)[8..] + Zeros(8))[k]
    {
      BitAbove8(c, k);
      if k >= 24 {
        BitAbove32(c, k - 24);
      }
    }
  }

  lemma LowByteBit(c: bv32, w: bv32, k: nat)
    requires k < 8
    ensures Bit((c ^ w) & 0xFF, k) == (Bit(c, k) != Bit(w, k))
  {
    match k
      case 0 => case 1 => case 2 => case 3 => case 4 => case 5 => case 6 => case _ =>
  }

  lemma ByteBit(w: bv32, k: nat)
    requires w < 256 && k >= 8
    ensures !Bit(w, k)
  {
    BitAbove8(w, k - 8);
    assert w >> 8 == 0;
    NoBit(k - 8);
  }

  lemma IndexBits(c: bv32, w: bv32, i: bv32)
    requires i == (c ^ w) & 0xFF
    ensures WordBits(i, 32) == Sum(WordBits(c, 32)[..8], WordBits(w, 8)) + Zeros(24)
  {
    forall k | 0 <= k < 32
      ensures Bit(i, k) == (k < 8 && (Bit(c, k) != Bit(w, k)))
    {
      if k < 8 {
        LowByteBit(c, w, k);
      } else {
        ByteBit(i, k);
      }
    }
  }

  lemma XorHighBytes(entry: bv32, c: bv32)
    ensures WordBits(entry ^ (c >> 8), 32) == Sum(WordBits(entry, 32), WordBits(c >> 8, 32))
  {
    var bits := WordBits(entry ^ (c >> 8), 32);
    forall k | 0 <= k < 32
      ensures bits[k] == (Bit(entry, k) != Bit(c >> 8, k))
    {
      XorBit(k);
      assert Bit(entry ^ (c >> 8), k) == (Bit(entry, k) != Bit(c >> 8, k));
    }
  }

  lemma StepBits(c: bv32, w: bv32, i: bv32, entry: bv32)
    requires i == (c ^ w) & 0xFF
    requires WordBits(entry, 32) == Feed(WordBits(i, 32), Zeros(8))
    ensures WordBits(entry ^ (c >> 8), 32) == Feed(WordBits(c, 32), WordBits(w, 8))
  {
    hide WordBits, Feed, Sum;
    IndexBits(c, w, i);
    HighBytes(c);
    XorHighBytes(entry, c);
    FeedSplit(WordBits(c, 32), WordBits(w, 8));
  }

  lemma TableBits(i: Byte)
    ensures WordBits(TableEntry(i), 32) == Feed(WordBits(i as bv32, 32), Zeros(8))
  {
    TableIsDivision(i);
    ShiftTimesFollows(8);
  }

  lemma FrameAppend(frame: seq<Byte>, b: Byte)
    ensures FrameRegister(frame + [b]) == Feed(FrameRegister(frame), ByteBits(b))
  {
    assert (frame + [b])[..|frame|] == frame;
    FeedAppend(Ones(32), FrameBits(frame), ByteBits(b));
  }

  // ----- Bits determine bytes and words -----

  lemma {:induction false} FrameBitsAppend(f: seq<Byte>, g: seq<Byte>)
    ensures FrameBits(f + g) == FrameBits(f) + FrameBits(g)
  {
    if g == [] {
      assert f + g == f;
    } else {
      var n := |g| - 1;
      assert (f + g)[..|f| + n] == f + g[..n];
      FrameBitsAppend(f, g[..n]);
    }
  }

  lemma ByteFromBits(x: Byte, y: Byte)
    requires ByteBits(x) == ByteBits(y)
    ensures x == y
  {
    var a, b := ByteBits(x), ByteBits(y);
    assert a[0] == b[0] && a[1] == b[1] && a[2] == b[2] && a[3] == b[3];
    assert a[4] == b[4] && a[5] == b[5] && a[6] == b[6] && a[7] == b[7];
  }

  lemma SplitEqual(a: seq<bool>, b: seq<bool>, c: seq<bool>, d: seq<bool>)
    requires |a| == |c| && a + b == c + d
    ensures a == c && b == d
  {
    assert a == (a + b)[..|a|] && b == (a + b)[|a|..];
  }

  lemma {:induction false} FrameFromBits(f: seq<Byte>, g: seq<Byte>)
    requires |f| == |g| && FrameBits(f) == FrameBits(g)
    ensures f == g
  {
    hide ByteBits;
    if f != [] {
      var n := |f| - 1;
      var x, y := f[n], g[n];
      SplitEqual(FrameBits(f[..n]), ByteBits(x), FrameBits(g[..n]), ByteBits(y));
      FrameFromBits(f[..n], g[..n]);
      ByteFromBits(x, y);
      assert f == f[..n] + [x] && g == g[..n] + [y];
    }
  }

  /** The bits of a word are those of its four bytes, low byte first. */
  lemma WordOctets(w: bv32)
    ensures WordBits(w, 32)
         == WordBits(w, 8) + WordBits(w >> 8, 8) + WordBits(w >> 16, 8) + WordBits(w >> 24, 8)
  {
    var b, c, d := w >> 8, w >> 16, w >> 24;
    forall k | 0 <= k < 32
      ensures WordBits(w, 32)[k] == (WordBits(w, 8) + WordBits(b, 8) + WordBits(c, 8) + WordBits(d, 8))[k]
    {
      if k >= 24 {
        BitAbove24(w, k - 24);
      } else if k >= 16 {
        BitAbove16(w, k - 16);
      } else if k >= 8 {
        BitAbove8(w, k - 8);
      }
    }
  }

  lemma WordFromBits(a: bv32, b: bv32)
    requires WordBits(a, 32) == WordBits(b, 32)
    ensures a == b
  {
    hide Bit;
    forall k | 0 <= k < 32
      ensures Bit(a, k) == Bit(b, k)
    {
      assert WordBits(a, 32)[k] == WordBits(b, 32)[k];
    }
    SameBits(a, b);
  }

  // ----- What the check sequence detects -----

  /** Two bit strings that agree outside a window of 32 places from s on. */
  predicate AgreeOutside(u: seq<bool>, v: seq<bool>, s: nat) {
    && |u| == |v|
    && s <= |u|
    && u[..s] == v[..s]
    && (s + 32 <= |u| ==> u[s + 32..] == v[s + 32..])
  }

  lemma ThreeParts(u: seq<bool>, s: nat, e: nat)
    requires s <= e <= |u|
    ensures u == u[..s] + (u[s..e] + u[e..])
  {
  }

  lemma FeedThree(r: Register, u: seq<bool>, s: nat, e: nat)
    requires s <= e <= |u|
    ensures Feed(r, u) == Feed(Feed(Feed(r, u[..s]), u[s..e]), u[e..])
  {
    ThreeParts(u, s, e);
    FeedAppend(r, u[..s], u[s..e] + u[e..]);
    FeedAppend(Feed(r, u[..s]), u[s..e], u[e..]);
  }

  /** Bursts: whatever stands before and after, an alteration within 32 consecutive bits is seen. */
  lemma BurstDetected(r: Register, u: seq<bool>, v: seq<bool>, s: nat)
    requires AgreeOutside(u, v, s) && u != v
    ensures Feed(r, u) != Feed(r, v)
  {
    var e := if s + 32 <= |u| then s + 32 else |u|;
    FeedThree(r, u, s, e);
    FeedThree(r, v, s, e);
    assert u[e..] == v[e..];
    var t := Feed(r, u[..s]);
    if Feed(r, u) == Feed(r, v) {
      FeedInjective(Feed(t, u[s..e]), Feed(t, v[s..e]), u[e..]);
      BurstChangesRegister(t, u[s..e], v[s..e]);
      ThreeParts(u, s, e);
      ThreeParts(v, s, e);
    }
  }

  /** Frames of equal length that differ only within four consecutive bytes. */
  predicate DifferInFourBytes(f: seq<Byte>, g: seq<Byte>, p: nat) {
    && |f| == |g|
    && f != g
    && p <= |f|
    && forall k :: 0 <= k < |f| && !(p <= k < p + 4) ==> f[k] == g[k]
  }

  lemma BitsOfParts(f: seq<Byte>, p: nat)
    requires p <= |f|
    ensures FrameBits(f)[..8 * p] == FrameBits(f[..p])
    ensures FrameBits(f)[8 * p..] == FrameBits(f[p..])
  {
    hide ByteBits;
    assert f == f[..p] + f[p..];
    FrameBitsAppend(f[..p], f[p..]);
  }

  lemma WindowOfBits(f: seq<Byte>, g: seq<Byte>, p: nat)
    requires DifferInFourBytes(f, g, p)
    ensures AgreeOutside(FrameBits(f), FrameBits(g), 8 * p) && FrameBits(f) != FrameBits(g)
  {
    hide FrameBits;
    assert f[..p] == g[..p];
    BitsOfParts(f, p);
    BitsOfParts(g, p);
    if p + 4 <= |f| {
      assert f[p + 4..] == g[p + 4..];
      BitsOfParts(f, p + 4);
      BitsOfParts(g, p + 4);
    }
    if FrameBits(f) == FrameBits(g) {
      FrameFromBits(f, g);
    }
  }

  /** Frames that differ only within four consecutive bytes have different check sequences. */
  lemma FourByteWindow(f: seq<Byte>, g: seq<Byte>, p: nat)
    requires DifferInFourBytes(f, g, p)
    ensures FrameRegister(f) != FrameRegister(g)
    ensures FrameCheckSequence(FrameBits(f)) != FrameCheckSequence(FrameBits(g))
  {
    hide FrameBits, Feed, Remainder, DifferInFourBytes;
    WindowOfBits(f, g, p);
    BurstDetected(Ones(32), FrameBits(f), FrameBits(g), 8 * p);
    FeedDivides(Ones(32), FrameBits(f));
    FeedDivides(Ones(32), FrameBits(g));
    ComplementInjective(FrameRegister(f), FrameRegister(g));
  }

  lemma ComplementInjective(p: Register, q: Register)
    ensures Complement(p) == Complement(q) ==> p == q
  {
    if Complement(p) == Complement(q) {
      forall k | 0 <= k < 32
        ensures p[k] == q[k]
      {
        assert Complement(p)[k] == Complement(q)[k];
      }
    }
  }

  /** A body followed by its check sequence leaves one and the same residue, and only that does. */
  lemma ResidueTest(body: seq<Byte>, fcs: seq<Byte>)
    requires |fcs| == 4
    ensures FrameBits(fcs) == FrameCheckSequence(FrameBits(body))
       <==> FrameRegister(body + fcs) == Feed(Ones(32), Zeros(32))
  {
    hide FrameBits, Feed, Remainder;
    var r, c := FrameRegister(body), FrameBits(fcs);
    FeedDivides(Ones(32), FrameBits(body));
    FrameBitsAppend(body, fcs);
    FeedAppend(Ones(32), FrameBits(body), c);
    FeedAsSum(r, c);
    assert c + Zeros(0) == c;
    if FrameRegister(body + fcs) == Feed(Ones(32), Zeros(32)) {
      FeedInjective(Sum(r, c), Ones(32), Zeros(32));
      forall k | 0 <= k < 32
        ensures c[k] == Complement(r)[k]
      {
        assert Sum(r, c)[k] == Ones(32)[k];
      }
    }
    if c == Complement(r) {
      assert Sum(r, c) == Ones(32);
    }
  }

  // ----- A known value -----

  lemma NextWord(c: bv32, b: Byte, i: Byte, entry: bv32, next: bv32)
    requires i as bv32 == (c ^ (b as bv32)) & 0xFF && entry == TableEntry(i) && next == entry ^ (c >> 8)
    ensures WordBits(next, 32) == Feed(WordBits(c, 32), ByteBits(b))
  {
    hide TableEntry, WordBits, Feed;
    TableBits(i);
    StepBits(c, b as bv32, i as bv32, entry);
  }

  const DIGITS: seq<Byte> := [0x31, 0x32, 0x33, 0x34, 0x35, 0x36, 0x37, 0x38, 0x39]

  lemma RegisterStep(n: nat)
    requires n < 9
    ensures FrameRegister(DIGITS[..n + 1]) == Feed(FrameRegister(DIGITS[..n]), ByteBits(DIGITS[n]))
  {
    hide FrameRegister, ByteBits;
    assert DIGITS[..n + 1] == DIGITS[..n] + [DIGITS[n]];
    FrameAppend(DIGITS[..n], DIGITS[n]);
  }

  lemma RegisterAfter3()
    ensures FrameRegister(DIGITS[..3]) == WordBits(0x77b79c2d, 32)
  {
    hide FrameRegister, WordBits, Feed, TableEntry;
    NoDigits();
    NextDigit0();
    RegisterStep(0);
    NextDigit1();
    RegisterStep(1);
    NextDigit2();
    RegisterStep(2);
  }

  lemma RegisterAfter6()
    ensures FrameRegister(DIGITS[..6]) == WordBits(0xf68d2c9e, 32)
  {
    hide FrameRegister, WordBits, Feed, TableEntry;
    RegisterAfter3();
    NextDigit3();
    RegisterStep(3);
    NextDigit4();
    RegisterStep(4);
    NextDigit5();
    RegisterStep(5);
  }

  lemma RegisterAfter9()
    ensures FrameRegister(DIGITS[..9]) == WordBits(0x340bc6d9, 32)
  {
    hide FrameRegister, WordBits, Feed, TableEntry;
    RegisterAfter6();
    NextDigit6();
    RegisterStep(6);
    NextDigit7();
    RegisterStep(7);
    NextDigit8();
    RegisterStep(8);
  }

  lemma NextDigit0()
    ensures WordBits(0x7c231048, 32) == Feed(WordBits(0xffffffff, 32), ByteBits(0x31))
  {
    NextWord(0xffffffff, 0x31, 0xce, 0x7cdcefb7, 0x7c231048);
  }

  lemma NextDigit1()
    ensures WordBits(0xb0acbb32, 32) == Feed(WordBits(0x7c231048, 32), ByteBits(0x32))
  {
    NextWord(0x7c231048, 0x32, 0x7a, 0xb0d09822, 0xb0acbb32);
  }

  lemma NextDigit2()
    ensures WordBits(0x77b79c2d, 32) == Feed(WordBits(0xb0acbb32, 32), ByteBits(0x33))
  {
    NextWord(0xb0acbb32, 0x33, 0x01, 0x77073096, 0x77b79c2d);
  }

  lemma NextDigit3()
    ensures WordBits(0x641c1f5c, 32) == Feed(WordBits(0x77b79c2d, 32), ByteBits(0x34))
  {
    NextWord(0x77b79c2d, 0x34, 0x19, 0x646ba8c0, 0x641c1f5c);
  }

  lemma NextDigit4()
    ensures WordBits(0x340ac5e3, 32) == Feed(WordBits(0x641c1f5c, 32), ByteBits(0x35))
  {
    NextWord(0x641c1f5c, 0x35, 0x69, 0x346ed9fc, 0x340ac5e3);
  }

  lemma NextDigit5()
    ensures WordBits(0xf68d2c9e, 32) == Feed(WordBits(0x340ac5e3, 32), ByteBits(0x36))
  {
    NextWord(0x340ac5e3, 0x36, 0xd5, 0xf6b9265b, 0xf68d2c9e);
  }

  lemma NextDigit6()
    ensures WordBits(0xaffc9660, 32) == Feed(WordBits(0xf68d2c9e, 32), ByteBits(0x37))
  {
    NextWord(0xf68d2c9e, 0x37, 0xa9, 0xaf0a1b4c, 0xaffc9660);
  }

  lemma NextDigit7()
    ensures WordBits(0x651f2550, 32) == Feed(WordBits(0xaffc9660, 32), ByteBits(0x38))
  {
    NextWord(0xaffc9660, 0x38, 0x58, 0x65b0d9c6, 0x651f2550);
  }

  lemma NextDigit8()
    ensures WordBits(0x340bc6d9, 32) == Feed(WordBits(0x651f2550, 32), ByteBits(0x39))
  {
    NextWord(0x651f2550, 0x39, 0x69, 0x346ed9fc, 0x340bc6d9);
  }

  lemma NoDigits()
    ensures FrameRegister(DIGITS[..0]) == WordBits(0xFFFF_FFFF, 32)
  {
    hide WordBits;
    AllOnes();
    assert DIGITS[..0] == [];
  }

  /** The check value of the digits 1 to 9, as published for this code: CBF43926. */
  lemma KnownValue()
    ensures FrameCheckSequence(FrameBits(DIGITS)) == WordBits(0xCBF4_3926, 32)
  {
    hide FrameRegister, WordBits, Feed, Remainder, FrameBits;
    RegisterAfter9();
    assert DIGITS[..9] == DIGITS;
    CheckOfRegister(DIGITS);
    ComplementBits(0x340bc6d9);
    assert !(0x340bc6d9 as bv32) == 0xCBF4_3926;
  }

  lemma CheckOfRegister(frame: seq<Byte>)
    ensures FrameCheckSequence(FrameBits(frame)) == Complement(FrameRegister(frame))
  {
    hide Remainder, FrameBits, Feed;
    FeedDivides(Ones(32), FrameBits(frame));
  }
}
