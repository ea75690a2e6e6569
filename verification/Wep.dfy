/** Opening WEP frames (athr-hostap/wlantest/wep.c): RC4, the cyclic key fill, the integrity
    check value and the search through the configured keys. */
module Wep {

  import opened Wrappers
  import opened Arithmetic
  import opened Bits
  import opened Crc32

  // ----- RC4 on values -----
  // Indices and box entries are numbers modulo 256; message and key bytes are bit vectors.

  type Octet = x: int | 0 <= x < 256

  const SWAPS: nat := 256

  type Box = s: seq<Octet> | |s| == 256 witness seq(256, k => 0)

  function Identity(): Box {
    seq(256, k requires 0 <= k < 256 => k)
  }

  function Swap(s: Box, i: Octet, j: Octet): Box {
    s[i := s[j]][j := s[i]]
  }

  lemma SwapPermutes(s: Box, i: Octet, j: Octet)
    ensures multiset(Swap(s, i, j)) == multiset(s)
  {
  }

  datatype Schedule = Schedule(s: Box, j: Octet)

  function ScheduleStep(before: Schedule, i: Octet, k: Byte): Schedule {
    var j := (before.j + before.s[i] + k as int) % 256;
    Schedule(Swap(before.s, i, j), j)
  }

  /** The key schedule after n swaps; the key is indexed modulo its own length. */
  function KeySchedule(key: seq<Byte>, n: nat): Schedule
    requires |key| > 0 && n <= SWAPS
  {
    if n == 0 then Schedule(Identity(), 0)
    else ScheduleStep(KeySchedule(key, n - 1), n - 1, key[(n - 1) % |key|])
  }

  datatype Generator = Generator(s: Box, i: Octet, j: Octet)

  function StreamStep(before: Generator): Generator {
    var i := (before.i + 1) % 256;
    var j := (before.j + before.s[i]) % 256;
    Generator(Swap(before.s, i, j), i, j)
  }

  /** The generator after k bytes of key stream. */
  function StreamState(key: seq<Byte>, k: nat): Generator
    requires |key| > 0
  {
    if k == 0 then Generator(KeySchedule(key, SWAPS).s, 0, 0)
    else StreamStep(StreamState(key, k - 1))
  }

  function Output(g: Generator): Byte {
    var x: int, y: int := g.s[g.i], g.s[g.j];
    g.s[(x + y) % 256] as Byte
  }

  /** Byte k of the key stream. */
  function KeyStream(key: seq<Byte>, k: nat): Byte
    requires |key| > 0
  {
    Output(StreamState(key, k + 1))
  }

  function Pad(key: seq<Byte>, n: nat): (pad: seq<Byte>)
    requires |key| > 0
    ensures |pad| == n
  {
    seq(n, k requires 0 <= k < n => KeyStream(key, k))
  }

  function Mask(data: seq<Byte>, pad: seq<Byte>): (r: seq<Byte>)
    requires |pad| == |data|
    ensures |r| == |data|
  {
    seq(|data|, k requires 0 <= k < |data| => data[k] ^ pad[k])
  }

  function Crypt(key: seq<Byte>, data: seq<Byte>): (r: seq<Byte>)
    requires |key| > 0
    ensures |r| == |data|
  {
    Mask(data, Pad(key, |data|))
  }

  /** The box is a permutation of the 256 byte values. */
  predicate IsPermutation(s: Box) {
    multiset(s) == multiset(Identity())
  }

  lemma {:induction false} SchedulePermutes(key: seq<Byte>, n: nat)
    requires |key| > 0 && n <= SWAPS
    ensures IsPermutation(KeySchedule(key, n).s)
  {
    if n > 0 {
      var before := KeySchedule(key, n - 1);
      SchedulePermutes(key, n - 1);
      SwapPermutes(before.s, n - 1, KeySchedule(key, n).j);
    }
  }

  lemma StepPermutes(g: Generator)
    requires IsPermutation(g.s)
    ensures IsPermutation(StreamStep(g).s)
  {
    SwapPermutes(g.s, StreamStep(g).i, StreamStep(g).j);
  }

  /** Whatever the key, the box is a permutation before every byte of the key stream. */
  lemma {:induction false} StreamPermutes(key: seq<Byte>, k: nat)
    requires |key| > 0
    ensures IsPermutation(StreamState(key, k).s)
  {
    hide KeySchedule, StreamStep, IsPermutation;
    if k == 0 {
      SchedulePermutes(key, SWAPS);
    } else {
      StreamPermutes(key, k - 1);
      StepPermutes(StreamState(key, k - 1));
    }
  }

  lemma XorTwice(a: Byte, b: Byte)
    ensures (a ^ b) ^ b == a
  {
  }

  lemma MaskTwice(data: seq<Byte>, pad: seq<Byte>)
    requires |pad| == |data|
    ensures Mask(Mask(data, pad), pad) == data
  {
    forall k | 0 <= k < |data|
      ensures Mask(Mask(data, pad), pad)[k] == data[k]
    {
      XorTwice(data[k], pad[k]);
    }
  }

  /** Encrypting twice gives the data back. */
  lemma CryptInvolution(key: seq<Byte>, data: seq<Byte>)
    requires |key| > 0
    ensures Crypt(key, Crypt(key, data)) == data
  {
    MaskTwice(data, Pad(key, |data|));
  }

  lemma CryptPrefix(key: seq<Byte>, data: seq<Byte>, n: nat)
    requires |key| > 0 && n <= |data|
    ensures Crypt(key, data)[..n] == Crypt(key, data[..n])
  {
  }

  lemma MixStep(done: seq<Byte>, data: seq<Byte>, k: nat)
    requires |done| == |data| && k < |data|
    ensures (done[..k] + data[k..])[k := done[k]] == done[..k + 1] + data[k + 1..]
  {
  }

  // ----- RC4 in place -----

  method SwapInPlace(s: array<Octet>, i: Octet, j: Octet)
    requires s.Length == 256
    modifies s
    ensures s[..] == Swap(old(s[..]), i, j)
  {
    s[i], s[j] := s[j], s[i];
  }

  /** One turn of the key schedule loop of wep_crypt. */
  method ScheduleTurn(s: array<Octet>, i: Octet, j: Octet, k: Byte) returns (j': Octet)
    requires s.Length == 256
    modifies s
    ensures Schedule(s[..], j') == ScheduleStep(old(Schedule(s[..], j)), i, k)
  {
    var sum: int := j + s[i] + k as int;
    j' := sum % 256;
    SwapInPlace(s, i, j');
  }

  /** The key schedule of wep_crypt: key has 16 bytes and is indexed with i & 0x0f. */
  method ScheduleKey(key: array<Byte>, s: array<Octet>)
    requires key.Length == 16 && s.Length == 256
    modifies s
    ensures s[..] == KeySchedule(key[..], SWAPS).s
  {
    ghost var k0 := key[..];
    for i := 0 to 256
      invariant s[..i] == Identity()[..i]
    {
      s[i] := i;
    }
    var j: Octet := 0;
    for i := 0 to SWAPS
      invariant Schedule(s[..], j) == KeySchedule(k0, i)
    {
      var k := key[i % 16];
      assert k == k0[i % |k0|];
      j := ScheduleTurn(s, i, j, k);
    }
  }

  /** One turn of the data loop of wep_crypt, up to the key stream byte. */
  method StreamTurn(s: array<Octet>, i: Octet, j: Octet) returns (i': Octet, j': Octet, out: Byte)
    requires s.Length == 256
    modifies s
    ensures Generator(s[..], i', j') == StreamStep(old(Generator(s[..], i, j)))
    ensures out == Output(Generator(s[..], i', j'))
  {
    var next: int := i + 1;
    i' := next % 256;
    var sum: int := j + s[i'];
    j' := sum % 256;
    SwapInPlace(s, i', j');
    var x: int, y: int := s[i'], s[j'];
    out := s[(x + y) % 256] as Byte;
  }

  /** wep_crypt: the data is changed in place, byte by byte, while the box goes on changing. */
  method WepCrypt(key: array<Byte>, buf: array<Byte>, plen: nat)
    requires key.Length == 16 && plen <= buf.Length && key != buf
    modifies buf
    ensures buf[..plen] == Crypt(key[..], old(buf[..plen]))
    ensures buf[plen..] == old(buf[plen..])
  {
    hide StreamStep, Output, KeySchedule;
    ghost var k0, d0 := key[..], buf[..];
    ghost var pad := Pad(k0, buf.Length);
    ghost var r := Mask(d0, pad);
    CryptPrefix(k0, d0, plen);
    var s := new Octet[256];
    ScheduleKey(key, s);
    var i: Octet, j: Octet := 0, 0;
    for k := 0 to plen
      invariant Generator(s[..], i, j) == StreamState(k0, k)
      invariant buf[..] == r[..k] + d0[k..]
    {
      var out: Byte;
      i, j, out := StreamTurn(s, i, j);
      MixStep(r, d0, k);
      buf[k] := buf[k] ^ out;
    }
  }

  // ----- The cyclic fill of the 16-byte key buffer -----

  function Fill(key: seq<Byte>): (k: seq<Byte>)
    requires |key| > 0
    ensures |k| == 16
  {
    seq(16, i requires 0 <= i < 16 => key[i % |key|])
  }

  lemma ModSuccessor(i: nat, n: nat)
    requires n > 0
    ensures (i + 1) % n == if i % n + 1 == n then 0 else i % n + 1
  {
    var q, r := i / n, i % n;
    assert i + 1 == n * q + (r + 1);
    if r + 1 == n {
      assert i + 1 == n * (q + 1);
      Modulo(i + 1, q + 1, n, 0);
    } else {
      Modulo(i + 1, q, n, r + 1);
    }
  }

  /** The fill loop of try_wep: j runs through the key and starts over at its end. */
  method FillKey(key: array<Byte>, keyLen: nat) returns (k: array<Byte>)
    requires 1 <= keyLen <= key.Length
    ensures fresh(k) && k.Length == 16 && k[..] == Fill(key[..keyLen])
  {
    k := new Byte[16];
    var j := 0;
    for i := 0 to 16
      invariant j == i % keyLen
      invariant k[..i] == Fill(key[..keyLen])[..i]
    {
      k[i] := key[j];
      ModSuccessor(i, keyLen);
      j := j + 1;
      if j >= keyLen {
        j := 0;
      }
    }
  }

  lemma DivisorsOf16(n: nat)
    requires 1 <= n <= 16 && 16 % n == 0
    ensures n in {1, 2, 4, 8, 16}
  {
    match n
      case 1 => case 2 => case 3 => case 4 => case 5 => case 6 => case 7 => case 8 =>
      case 9 => case 10 => case 11 => case 12 => case 13 => case 14 => case 15 => case _ =>
  }

  lemma ModPowers(i: nat)
    ensures i % 16 % 2 == i % 2 && i % 16 % 4 == i % 4 && i % 16 % 8 == i % 8
  {
    var q, r := i / 16, i % 16;
    Modulo(i, 8 * q + r / 2, 2, r % 2);
    Modulo(i, 4 * q + r / 4, 4, r % 4);
    Modulo(i, 2 * q + r / 8, 8, r % 8);
  }

  lemma ModNested(i: nat, n: nat)
    requires 1 <= n <= 16 && 16 % n == 0
    ensures i % 16 % n == i % n
  {
    DivisorsOf16(n);
    ModPowers(i);
    match n
      case 1 => case 2 => case 4 => case 8 => case _ =>
  }

  lemma FillIndex(key: seq<Byte>, i: nat)
    requires 1 <= |key| <= 16 && 16 % |key| == 0
    ensures Fill(key)[i % 16] == key[i % |key|]
  {
    ModNested(i, |key|);
  }

  /** The fill repeats the key without a seam exactly for the lengths that divide 16. */
  lemma FillIsSeamless(n: nat)
    requires 1 <= n <= 16
    ensures 16 % n == 0 <==>
            forall key: seq<Byte>, i: nat :: |key| == n ==> Fill(key)[i % 16] == key[i % n]
  {
    if 16 % n == 0 {
      forall key: seq<Byte>, i: nat | |key| == n
        ensures Fill(key)[i % 16] == key[i % n]
      {
        FillIndex(key, i);
      }
    } else {
      var key: seq<Byte> := seq(n, k => if k == 0 then 0 else 1);
      assert Fill(key)[16 % 16] != key[16 % n];
    }
  }

  lemma {:induction false} FillKeepsSchedule(key: seq<Byte>, n: nat)
    requires 1 <= |key| <= 16 && 16 % |key| == 0 && n <= SWAPS
    ensures KeySchedule(Fill(key), n) == KeySchedule(key, n)
  {
    if n > 0 {
      FillKeepsSchedule(key, n - 1);
      FillIndex(key, n - 1);
    }
  }

  lemma {:induction false} FillKeepsStream(key: seq<Byte>, k: nat)
    requires 1 <= |key| <= 16 && 16 % |key| == 0
    ensures StreamState(Fill(key), k) == StreamState(key, k)
  {
    hide KeySchedule, Fill;
    if k == 0 {
      FillKeepsSchedule(key, SWAPS);
    } else {
      FillKeepsStream(key, k - 1);
    }
  }

  lemma FillKeepsPad(key: seq<Byte>, n: nat)
    requires 1 <= |key| <= 16 && 16 % |key| == 0
    ensures Pad(Fill(key), n) == Pad(key, n)
  {
    forall k | 0 <= k < n
      ensures KeyStream(Fill(key), k) == KeyStream(key, k)
    {
      FillKeepsStream(key, k + 1);
    }
  }

  // ----- The integrity check value -----

  function ByteOf(bits: seq<bool>): Byte
    requires |bits| == 8
  {
    (if bits[0] then 1 else 0) | (if bits[1] then 2 else 0) | (if bits[2] then 4 else 0)
    | (if bits[3] then 8 else 0) | (if bits[4] then 16 else 0) | (if bits[5] then 32 else 0)
    | (if bits[6] then 64 else 0) | (if bits[7] then 128 else 0)
  }

  lemma ByteOfBit(bits: seq<bool>, k: nat)
    requires |bits| == 8 && k < 8
    ensures Bit(ByteOf(bits) as bv32, k) == bits[k]
  {
    match k
      case 0 => case 1 => case 2 => case 3 => case 4 => case 5 => case 6 => case _ =>
  }

  lemma BitsOfByteOf(bits: seq<bool>)
    requires |bits| == 8
    ensures ByteBits(ByteOf(bits)) == bits
  {
    forall k | 0 <= k < 8
      ensures ByteBits(ByteOf(bits))[k] == bits[k]
    {
      ByteOfBit(bits, k);
    }
  }

  /** The four bytes sent after the body: its check sequence, in the order of transmission. */
  function Icv(body: seq<Byte>): (icv: seq<Byte>)
    ensures |icv| == 4
  {
    var fcs := FrameCheckSequence(FrameBits(body));
    [ByteOf(fcs[..8]), ByteOf(fcs[8..16]), ByteOf(fcs[16..24]), ByteOf(fcs[24..])]
  }

  lemma FourByteBits(a: Byte, b: Byte, c: Byte, d: Byte)
    ensures FrameBits([a, b, c, d]) == ByteBits(a) + ByteBits(b) + ByteBits(c) + ByteBits(d)
  {
    assert FrameBits([a]) == [] + ByteBits(a);
    assert [a, b][..1] == [a];
    assert FrameBits([a, b]) == ByteBits(a) + ByteBits(b);
    assert [a, b, c][..2] == [a, b];
    assert FrameBits([a, b, c]) == ByteBits(a) + ByteBits(b) + ByteBits(c);
    assert [a, b, c, d][..3] == [a, b, c];
  }

  lemma IcvBits(body: seq<Byte>)
    ensures FrameBits(Icv(body)) == FrameCheckSequence(FrameBits(body))
  {
    hide FrameBits, FrameCheckSequence, ByteOf, ByteBits;
    var fcs := FrameCheckSequence(FrameBits(body));
    BitsOfByteOf(fcs[..8]);
    BitsOfByteOf(fcs[8..16]);
    BitsOfByteOf(fcs[16..24]);
    BitsOfByteOf(fcs[24..]);
    FourByteBits(ByteOf(fcs[..8]), ByteOf(fcs[8..16]), ByteOf(fcs[16..24]), ByteOf(fcs[24..]));
    assert fcs == fcs[..8] + fcs[8..16] + fcs[16..24] + fcs[24..];
  }

  /** The last four bytes are the check sequence of those before. */
  predicate IcvMatches(plain: seq<Byte>)
    requires |plain| >= 4
  {
    FrameBits(plain[|plain| - 4..]) == FrameCheckSequence(FrameBits(plain[..|plain| - 4]))
  }

  /** WPA_GET_LE32 */
  function GetLe32(a: Byte, b: Byte, c: Byte, d: Byte): bv32 {
    (d as bv32 << 24) | (c as bv32 << 16) | (b as bv32 << 8) | (a as bv32)
  }

  lemma LowBit(v: bv32, k: nat)
    requires k < 8
    ensures Bit(v & 0xFF, k) == Bit(v, k)
  {
    match k
      case 0 => case 1 => case 2 => case 3 => case 4 => case 5 => case 6 => case _ =>
  }

  lemma LowOctet(v: bv32, b: Byte)
    requires v & 0xFF == b as bv32
    ensures WordBits(v, 8) == ByteBits(b)
  {
    forall k | 0 <= k < 8
      ensures WordBits(v, 8)[k] == ByteBits(b)[k]
    {
      LowBit(v, k);
    }
  }

  lemma Le32Octets(a: Byte, b: Byte, c: Byte, d: Byte)
    ensures GetLe32(a, b, c, d) & 0xFF == a as bv32
    ensures (GetLe32(a, b, c, d) >> 8) & 0xFF == b as bv32
    ensures (GetLe32(a, b, c, d) >> 16) & 0xFF == c as bv32
    ensures (GetLe32(a, b, c, d) >> 24) & 0xFF == d as bv32
  {
  }

  lemma Le32Bits(a: Byte, b: Byte, c: Byte, d: Byte)
    ensures WordBits(GetLe32(a, b, c, d), 32) == FrameBits([a, b, c, d])
  {
    hide WordBits, ByteBits, GetLe32, FrameBits;
    FourByteBits(a, b, c, d);
    Le32Octets(a, b, c, d);
    var w := GetLe32(a, b, c, d);
    WordOctets(w);
    LowOctet(w, a);
    LowOctet(w >> 8, b);
    LowOctet(w >> 16, c);
    LowOctet(w >> 24, d);
  }

  // ----- Trying one key -----

  lemma MatchByWords(plain: seq<Byte>, icv: bv32)
    requires |plain| >= 4
    requires WordBits(icv, 32) == FrameCheckSequence(FrameBits(plain[..|plain| - 4]))
    ensures var n := |plain|;
            IcvMatches(plain) <==> icv == GetLe32(plain[n - 4], plain[n - 3], plain[n - 2], plain[n - 1])
  {
    hide GetLe32, FrameBits, FrameCheckSequence, WordBits;
    var n := |plain|;
    var a, b, c, d := plain[n - 4], plain[n - 3], plain[n - 2], plain[n - 1];
    assert plain[n - 4..] == [a, b, c, d];
    Le32Bits(a, b, c, d);
    if IcvMatches(plain) {
      WordFromBits(icv, GetLe32(a, b, c, d));
    }
  }

  /** The check at the end of try_wep. */
  method CheckIcv(plain: array<Byte>, len: nat) returns (ok: bool)
    requires 4 <= len <= plain.Length
    ensures ok == IcvMatches(plain[..len])
  {
    hide IcvMatches, GetLe32;
    var icv := Crc32.Crc32(plain, len - 4);
    assert plain[..len][..len - 4] == plain[..len - 4];
    MatchByWords(plain[..len], icv);
    var rx := GetLe32(plain[len - 4], plain[len - 3], plain[len - 2], plain[len - 1]);
    ok := icv == rx;
  }

  /** os_memcpy */
  method Copy(data: array<Byte>, offset: nat, len: nat, to: array<Byte>)
    requires offset + len <= data.Length && len <= to.Length && to != data
    modifies to
    ensures to[..len] == data[offset..offset + len]
    ensures to[len..] == old(to[len..])
  {
    for i := 0 to len
      invariant to[..i] == data[offset..offset + i]
      invariant to[len..] == old(to[len..])
    {
      to[i] := data[offset + i];
    }
  }

  /** try_wep: plain receives the decrypted bytes whether or not the check passes. */
  method TryWep(key: array<Byte>, keyLen: nat, data: array<Byte>, offset: nat, dataLen: nat, plain: array<Byte>)
    returns (rc: int)
    requires 1 <= keyLen <= key.Length
    requires offset + dataLen <= data.Length && 4 <= dataLen <= plain.Length
    requires plain != data && plain != key
    modifies plain
    ensures plain[..dataLen] == Crypt(Fill(key[..keyLen]), data[offset..offset + dataLen])
    ensures plain[dataLen..] == old(plain[dataLen..])
    ensures rc == if IcvMatches(Crypt(Fill(key[..keyLen]), data[offset..offset + dataLen])) then 0 else -1
  {
    hide Crypt, Fill, IcvMatches;
    var k := FillKey(key, keyLen);
    Copy(data, offset, dataLen, plain);
    WepCrypt(k, plain, dataLen);
    var ok := CheckIcv(plain, dataLen);
    rc := if ok then 0 else -1;
  }

  // ----- Sealing and opening -----

  /** What a sender transmits: body and check value, encrypted under a key indexed modulo its own length. */
  function Seal(key: seq<Byte>, body: seq<Byte>): (sealed: seq<Byte>)
    requires |key| > 0
    ensures |sealed| == |body| + 4
  {
    Crypt(key, body + Icv(body))
  }

  /** What try_wep makes of it. */
  function Open(key: seq<Byte>, sealed: seq<Byte>): (plain: seq<Byte>)
    requires |key| > 0
    ensures |plain| == |sealed|
  {
    Crypt(Fill(key), sealed)
  }

  /** Opening undoes sealing and passes the check, for every key whose length divides 16:
      with three bytes of IV these are the keys of 5 and 13 bytes. */
  lemma OpenSeal(key: seq<Byte>, body: seq<Byte>)
    requires 1 <= |key| <= 16 && 16 % |key| == 0
    ensures Open(key, Seal(key, body)) == body + Icv(body)
    ensures IcvMatches(Open(key, Seal(key, body)))
  {
    hide Pad, Mask, FrameBits, FrameCheckSequence;
    FillKeepsPad(key, |body| + 4);
    CryptInvolution(key, body + Icv(body));
    IcvBits(body);
    var plain := body + Icv(body);
    assert plain[..|plain| - 4] == body && plain[|plain| - 4..] == Icv(body);
  }

  lemma XorDiffers(a: Byte, b: Byte, k: Byte)
    ensures a == b <==> a ^ k == b ^ k
  {
  }

  lemma MaskKeepsWindow(f: seq<Byte>, g: seq<Byte>, pad: seq<Byte>, p: nat)
    requires DifferInFourBytes(f, g, p) && |pad| == |f|
    ensures DifferInFourBytes(Mask(f, pad), Mask(g, pad), p)
  {
    var x, y := Mask(f, pad), Mask(g, pad);
    forall k | 0 <= k < |x|
      ensures x[k] == y[k] <==> f[k] == g[k]
    {
      XorDiffers(f[k], g[k], pad[k]);
    }
    var k :| 0 <= k < |f| && f[k] != g[k];
    assert x[k] != y[k];
  }

  lemma MatchIsResidue(plain: seq<Byte>)
    requires |plain| >= 4
    ensures IcvMatches(plain) <==> FrameRegister(plain) == Feed(Ones(32), Zeros(32))
  {
    hide FrameBits, FrameCheckSequence, Feed;
    var n := |plain| - 4;
    assert plain == plain[..n] + plain[n..];
    ResidueTest(plain[..n], plain[n..]);
  }

  /** A frame that opens under a key no longer does so after an alteration of up to four
      consecutive bytes, be they in the body, in the check value or across both. */
  lemma AlteredFrameRejected(key: seq<Byte>, sealed: seq<Byte>, forged: seq<Byte>, p: nat)
    requires |key| > 0 && |sealed| >= 4
    requires IcvMatches(Open(key, sealed))
    requires DifferInFourBytes(sealed, forged, p)
    ensures !IcvMatches(Open(key, forged))
  {
    hide IcvMatches, FrameRegister, FrameCheckSequence, Mask, DifferInFourBytes, Pad;
    MaskKeepsWindow(sealed, forged, Pad(Fill(key), |sealed|), p);
    FourByteWindow(Open(key, sealed), Open(key, forged), p);
    MatchIsResidue(Open(key, sealed));
    MatchIsResidue(Open(key, forged));
  }

  // ----- The search through the configured keys -----

  /** Configured keys have 5 or 13 bytes (add_wep). */
  predicate KeyList(keys: seq<seq<Byte>>) {
    forall k :: 0 <= k < |keys| ==> |keys[k]| == 5 || |keys[k]| == 13
  }

  /** A received frame body: three bytes of IV, the key number, the sealed data. */
  predicate OpensWith(key: seq<Byte>, data: seq<Byte>)
    requires |data| >= 8
  {
    IcvMatches(Open(data[..3] + key, data[4..]))
  }

  function PlainText(key: seq<Byte>, data: seq<Byte>): seq<Byte>
    requires |data| >= 8
  {
    Open(data[..3] + key, data[4..])[..|data| - 8]
  }

  /** What one key makes of the frame. */
  function Trial(key: seq<Byte>, data: seq<Byte>): Option<seq<Byte>>
    requires |data| >= 8
  {
    if OpensWith(key, data) then Some(PlainText(key, data)) else None
  }

  function Trials(keys: seq<seq<Byte>>, data: seq<Byte>): (ts: seq<Option<seq<Byte>>>)
    requires |data| >= 8
    ensures |ts| == |keys|
  {
    seq(|keys|, k requires 0 <= k < |keys| => Trial(keys[k], data))
  }

  function FirstSome(ts: seq<Option<seq<Byte>>>): Option<seq<Byte>> {
    if ts == [] then None else if ts[0].Some? then ts[0] else FirstSome(ts[1..])
  }

  /** One turn of the loop of wep_decrypt. */
  method TryKey(w: seq<Byte>, key: array<Byte>, data: array<Byte>, dataLen: nat, plain: array<Byte>)
    returns (rc: int)
    requires |w| <= 13
    requires key.Length == 16 && 8 <= dataLen <= data.Length && plain.Length == dataLen - 4
    requires key != data && key != plain && plain != data
    modifies key, plain
    ensures Trial(w, data[..dataLen]) == if rc == 0 then Some(plain[..dataLen - 8]) else None
  {
    hide IcvMatches, Crypt;
    ghost var d := data[..dataLen];
    var len := CopyKey(key, data, w);
    rc := TryWep(key, len, data, 4, dataLen - 4, plain);
    assert data[4..4 + (dataLen - 4)] == d[4..] && data[..3] == d[..3];
    assert plain[..dataLen - 8] == plain[..dataLen - 4][..dataLen - 8];
  }

  /** wep_decrypt: the result is the plaintext without its check value; memory says whether
      there was any for it. */
  method WepDecrypt(keys: seq<seq<Byte>>, data: array<Byte>, dataLen: nat, memory: bool)
    returns (r: Option<seq<Byte>>)
    requires KeyList(keys) && dataLen <= data.Length
    ensures r == if dataLen < 8 || !memory then None else FirstSome(Trials(keys, data[..dataLen]))
  {
    hide Trial;
    if keys == [] || dataLen < 8 || !memory {
      return None;
    }
    var plain := new Byte[dataLen - 4];
    var key := new Byte[16];
    ghost var d := data[..dataLen];
    ghost var ts := Trials(keys, d);
    assert ts[0..] == ts;
    for w := 0 to |keys|
      invariant data[..dataLen] == d
      invariant FirstSome(ts[w..]) == FirstSome(ts)
    {
      var rc := TryKey(keys[w], key, data, dataLen, plain);
      assert ts[w] == Trial(keys[w], d);
      assert ts[w..][1..] == ts[w + 1..];
      if rc == 0 {
        return Some(plain[..dataLen - 8]);
      }
    }
    return None;
  }

  method CopyKey(key: array<Byte>, data: array<Byte>, w: seq<Byte>) returns (len: nat)
    requires key.Length == 16 && data.Length >= 3 && |w| <= 13 && key != data
    modifies key
    ensures len == 3 + |w| && key[..len] == data[..3] + w
  {
    key[0], key[1], key[2] := data[0], data[1], data[2];
    for i := 0 to |w|
      invariant key[..3 + i] == data[..3] + w[..i]
    {
      key[3 + i] := w[i];
    }
    len := 3 + |w|;
  }

  lemma {:induction false} FirstSomeIs(ts: seq<Option<seq<Byte>>>, w: nat)
    requires w < |ts| && ts[w].Some?
    ensures FirstSome(ts).Some?
    ensures (forall m :: 0 <= m < w ==> ts[m].None?) ==> FirstSome(ts) == ts[w]
  {
    if w > 0 {
      FirstSomeIs(ts[1..], w - 1);
    }
  }

  lemma SealedFrameText(key: seq<Byte>, iv: seq<Byte>, id: Byte, body: seq<Byte>)
    requires (|key| == 5 || |key| == 13) && |iv| == 3
    ensures var data := iv + [id] + Seal(iv + key, body);
            Trial(key, data) == Some(body)
  {
    hide Seal, IcvMatches, Crypt;
    var data := iv + [id] + Seal(iv + key, body);
    assert data[..3] == iv && data[4..] == Seal(iv + key, body);
    OpenSeal(iv + key, body);
  }

  /** A frame sealed under a configured key is never dropped, and its body comes back unless an
      earlier key happens to pass the check as well. */
  lemma SealedFrameOpens(keys: seq<seq<Byte>>, w: nat, iv: seq<Byte>, id: Byte, body: seq<Byte>)
    requires KeyList(keys) && w < |keys| && |iv| == 3
    ensures var ts := Trials(keys, iv + [id] + Seal(iv + keys[w], body));
            && FirstSome(ts).Some?
            && ((forall m :: 0 <= m < w ==> ts[m].None?) ==> FirstSome(ts) == Some(body))
  {
    hide Trial, Seal;
    SealedFrameText(keys[w], iv, id, body);
    FirstSomeIs(Trials(keys, iv + [id] + Seal(iv + keys[w], body)), w);
  }
}
