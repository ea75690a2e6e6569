/** SHA-256 on whole messages, as FIPS 180-2 defines it (padding: section 5.1.1, schedule and
    rounds: section 6.2, constants: sections 4.2.2 and 5.3.2). */
module Sha256Spec {

  type Byte = bv8
  type Word = bv32

  datatype Hash = Hash(a: Word, b: Word, c: Word, d: Word, e: Word, f: Word, g: Word, h: Word)

  // ----- Functions and constants -----

  /** Addition modulo 2^32. */
  function Plus(x: Word, y: Word): Word {
    x + y
  }

  function Ch(x: Word, y: Word, z: Word): Word {
    (x & y) ^ (!x & z)
  }

  function Maj(x: Word, y: Word, z: Word): Word {
    (x & y) ^ (x & z) ^ (y & z)
  }

  function BigSigma0(w: Word): Word {
    ((w >> 2) | (w << 30)) ^ ((w >> 13) | (w << 19)) ^ ((w >> 22) | (w << 10))
  }

  function BigSigma1(w: Word): Word {
    ((w >> 6) | (w << 26)) ^ ((w >> 11) | (w << 21)) ^ ((w >> 25) | (w << 7))
  }

  function SmallSigma0(w: Word): Word {
    ((w >> 7) | (w << 25)) ^ ((w >> 18) | (w << 14)) ^ (w >> 3)
  }

  function SmallSigma1(w: Word): Word {
    ((w >> 17) | (w << 15)) ^ ((w >> 19) | (w << 13)) ^ (w >> 10)
  }

  const K_ROWS: seq<seq<Word>> := [
    [0x428a2f98, 0x71374491, 0xb5c0fbcf, 0xe9b5dba5, 0x3956c25b, 0x59f111f1, 0x923f82a4, 0xab1c5ed5],
    [0xd807aa98, 0x12835b01, 0x243185be, 0x550c7dc3, 0x72be5d74, 0x80deb1fe, 0x9bdc06a7, 0xc19bf174],
    [0xe49b69c1, 0xefbe4786, 0x0fc19dc6, 0x240ca1cc, 0x2de92c6f, 0x4a7484aa, 0x5cb0a9dc, 0x76f988da],
    [0x983e5152, 0xa831c66d, 0xb00327c8, 0xbf597fc7, 0xc6e00bf3, 0xd5a79147, 0x06ca6351, 0x14292967],
    [0x27b70a85, 0x2e1b2138, 0x4d2c6dfc, 0x53380d13, 0x650a7354, 0x766a0abb, 0x81c2c92e, 0x92722c85],
    [0xa2bfe8a1, 0xa81a664b, 0xc24b8b70, 0xc76c51a3, 0xd192e819, 0xd6990624, 0xf40e3585, 0x106aa070],
    [0x19a4c116, 0x1e376c08, 0x2748774c, 0x34b0bcb5, 0x391c0cb3, 0x4ed8aa4a, 0x5b9cca4f, 0x682e6ff3],
    [0x748f82ee, 0x78a5636f, 0x84c87814, 0x8cc70208, 0x90befffa, 0xa4506ceb, 0xbef9a3f7, 0xc67178f2]]

  function K(t: nat): Word
    requires t < 64
  {
    K_ROWS[t / 8][t % 8]
  }

  const H0: Hash := Hash(0x6A09E667, 0xBB67AE85, 0x3C6EF372, 0xA54FF53A,
                         0x510E527F, 0x9B05688C, 0x1F83D9AB, 0x5BE0CD19)

  // ----- One block -----

  const ROUNDS: nat := 64

  type Block = b: seq<Byte> | |b| == 64 witness seq(64, k => 0)

  function BigEndian(a: Byte, b: Byte, c: Byte, d: Byte): Word {
    (a as Word << 24) | (b as Word << 16) | (c as Word << 8) | (d as Word)
  }

  /** Word t of the message schedule. */
  function Schedule(block: Block, t: nat): Word
    requires t < ROUNDS
    decreases t
  {
    if t < 16 then BigEndian(block[4 * t], block[4 * t + 1], block[4 * t + 2], block[4 * t + 3])
    else Plus(Plus(Plus(SmallSigma1(Schedule(block, t - 2)), Schedule(block, t - 7)),
                   SmallSigma0(Schedule(block, t - 15))), Schedule(block, t - 16))
  }

  function Round(s: Hash, k: Word, w: Word): Hash {
    var t1 := Plus(Plus(Plus(Plus(s.h, BigSigma1(s.e)), Ch(s.e, s.f, s.g)), k), w);
    var t2 := Plus(BigSigma0(s.a), Maj(s.a, s.b, s.c));
    Hash(Plus(t1, t2), s.a, s.b, s.c, Plus(s.d, t1), s.e, s.f, s.g)
  }

  /** The working variables after t rounds. */
  function Rounds(s: Hash, block: Block, t: nat): Hash
    requires t <= ROUNDS
    decreases t
  {
    if t == 0 then s else Round(Rounds(s, block, t - 1), K(t - 1), Schedule(block, t - 1))
  }

  function AddHash(s: Hash, t: Hash): Hash {
    Hash(Plus(s.a, t.a), Plus(s.b, t.b), Plus(s.c, t.c), Plus(s.d, t.d),
         Plus(s.e, t.e), Plus(s.f, t.f), Plus(s.g, t.g), Plus(s.h, t.h))
  }

  function Compress(s: Hash, block: Block): Hash {
    AddHash(s, Rounds(s, block, ROUNDS))
  }

  // ----- Whole messages -----

  /** The hash value after all blocks of a string of whole blocks. */
  function HashBlocks(bytes: seq<Byte>): Hash
    requires |bytes| % 64 == 0
  {
    if bytes == [] then H0
    else Compress(HashBlocks(bytes[..|bytes| - 64]), bytes[|bytes| - 64..])
  }

  /** The number of zero bytes of the padding: the least that fills the last block. */
  function ZeroCount(n: nat): (k: nat)
    ensures k < 64 && (n + 9 + k) % 64 == 0
  {
    (119 - n % 64) % 64
  }

  function Zeros(n: nat): (z: seq<Byte>)
    ensures |z| == n
  {
    seq(n, k => 0)
  }

  function ToByte(n: nat): Byte {
    (n % 256) as Byte
  }

  /** A 64-bit number, most significant byte first. */
  function LengthBytes(bits: nat): (s: seq<Byte>)
    ensures |s| == 8
  {
    [ToByte(bits / 0x100_0000_0000_0000), ToByte(bits / 0x1_0000_0000_0000),
     ToByte(bits / 0x100_0000_0000), ToByte(bits / 0x1_0000_0000),
     ToByte(bits / 0x100_0000), ToByte(bits / 0x1_0000), ToByte(bits / 0x100), ToByte(bits)]
  }

  /** One bit, then zeros, then the length in bits. */
  function Pad(message: seq<Byte>): (padded: seq<Byte>)
    ensures |padded| % 64 == 0
    ensures message <= padded
  {
    message + [0x80] + Zeros(ZeroCount(|message|)) + LengthBytes(8 * |message|)
  }

  function WordBytes(w: Word): (s: seq<Byte>)
    ensures |s| == 4
  {
    [(w >> 24) as Byte, ((w >> 16) & 0xFF) as Byte, ((w >> 8) & 0xFF) as Byte, (w & 0xFF) as Byte]
  }

  function HashBytes(s: Hash): (d: seq<Byte>)
    ensures |d| == 32
  {
    WordBytes(s.a) + WordBytes(s.b) + WordBytes(s.c) + WordBytes(s.d)
    + WordBytes(s.e) + WordBytes(s.f) + WordBytes(s.g) + WordBytes(s.h)
  }

  /** Messages are shorter than 2^64 bits. */
  const LIMIT: nat := 0x2000_0000_0000_0000

  function Digest(message: seq<Byte>): (digest: seq<Byte>)
    requires |message| < LIMIT
    ensures |digest| == 32
  {
    HashBytes(HashBlocks(Pad(message)))
  }
}
