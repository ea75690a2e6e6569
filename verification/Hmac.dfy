/** HMAC-SHA-256 and the chained key expansion (wapid/hmac.c:63-70 and 397-531). */
module Hmac {

  import opened Sha256Spec
  import opened Sha256

  // ----- Section 2 of RFC 2104 -----

  function Xor(a: Byte, b: Byte): Byte {
    a ^ b
  }

  function XorEach(s: seq<Byte>, b: Byte): (r: seq<Byte>)
    ensures |r| == |s|
  {
    seq(|s|, i requires 0 <= i < |s| => Xor(s[i], b))
  }

  /** Keys longer than a block are hashed first. */
  function ShortKey(key: seq<Byte>): (k: seq<Byte>)
    requires |key| < LIMIT
    ensures |k| <= 64
  {
    if |key| > 64 then Digest(key) else key
  }

  function BlockKey(key: seq<Byte>): (k: seq<Byte>)
    requires |key| < LIMIT
    ensures |k| == 64
  {
    ShortKey(key) + Zeros(64 - |ShortKey(key)|)
  }

  function Hmac(key: seq<Byte>, text: seq<Byte>): (digest: seq<Byte>)
    requires |key| < LIMIT && |text| + 64 < LIMIT
    ensures |digest| == 32
  {
    var k := BlockKey(key);
    Digest(XorEach(k, 0x5c) + Digest(XorEach(k, 0x36) + text))
  }

  /** The pads, said of their bytes: taking the pad byte off again gives the key, filled with zeros
      to a block of 64 bytes. */
  predicate IsPad(pad: seq<Byte>, key: seq<Byte>, b: Byte) {
    |pad| == 64 && forall i :: 0 <= i < 64 ==> pad[i] ^ b == if i < |key| then key[i] else 0
  }

  lemma XorBack(p: Byte, k: Byte, b: Byte)
    requires p ^ b == k
    ensures p == Xor(k, b)
  {
  }

  lemma PadIs(pad: seq<Byte>, key: seq<Byte>, b: Byte)
    requires |key| <= 64 && IsPad(pad, key, b)
    ensures pad == XorEach(BlockKey(key), b)
  {
    hide Xor, BlockKey;
    var k := BlockKey(key);
    forall i | 0 <= i < 64
      ensures pad[i] == XorEach(k, b)[i]
    {
      ShortKeyByte(key, i);
      XorBack(pad[i], k[i], b);
    }
  }

  lemma ShortKeyByte(key: seq<Byte>, i: nat)
    requires |key| <= 64 && i < 64
    ensures BlockKey(key)[i] == if i < |key| then key[i] else 0
  {
    hide Digest;
  }

  /** HMAC with a key of at most 64 bytes, for any pads with that property. */
  lemma HmacLaw(key: seq<Byte>, text: seq<Byte>, inner: seq<Byte>, outer: seq<Byte>)
    requires |key| <= 64 && |text| + 64 < LIMIT
    requires IsPad(inner, key, 0x36) && IsPad(outer, key, 0x5c)
    ensures Hmac(key, text) == Digest(outer + Digest(inner + text))
  {
    hide Digest, XorEach, BlockKey, IsPad;
    PadIs(inner, key, 0x36);
    PadIs(outer, key, 0x5c);
  }

  /** A longer key acts as its digest. */
  lemma HmacLongKey(key: seq<Byte>, text: seq<Byte>)
    requires 64 < |key| < LIMIT && |text| + 64 < LIMIT
    ensures Hmac(key, text) == Hmac(Digest(key), text)
  {
    hide Digest, XorEach;
  }

  // ----- The implementation -----

  class HmacContext {
    var hashSize: nat
    var blockSize: nat
    const sha: Context
    const kOpad: array<Byte>

    ghost predicate Shape()
      reads this, sha
    {
      && sha.Shape()
      && kOpad.Length == 128
      && kOpad != sha.messageBlock
    }

    constructor ()
      ensures Shape()
      ensures fresh(sha) && fresh(sha.intermediateHash) && fresh(sha.messageBlock) && fresh(kOpad)
    {
      sha := new Context();
      kOpad := new Byte[128];
      hashSize, blockSize := 0, 0;
    }
  }

  lemma XorZero(b: Byte)
    ensures Xor(0, b) == b
  {
  }

  /** The loops of hmacReset that fill a pad from a key of at most one block. */
  method FillPad(key: array<Byte>, keyLen: nat, pad: array<Byte>, b: Byte)
    requires pad.Length == 128 && keyLen <= 64 && keyLen <= key.Length && key != pad
    modifies pad
    ensures pad[..64] == XorEach(key[..keyLen] + Zeros(64 - keyLen), b)
  {
    hide Xor;
    ghost var full := key[..keyLen] + Zeros(64 - keyLen);
    var i := 0;
    while i < keyLen
      invariant 0 <= i <= keyLen
      invariant forall k :: 0 <= k < i ==> pad[k] == Xor(full[k], b)
    {
      pad[i] := Xor(key[i], b);
      i := i + 1;
    }
    while i < 64
      invariant keyLen <= i <= 64
      invariant forall k :: 0 <= k < i ==> pad[k] == Xor(full[k], b)
    {
      XorZero(b);
      pad[i] := b;
      i := i + 1;
    }
  }

  /** The key that counts: a key_len that is not positive stands for the empty key. */
  function GivenKey(key: seq<Byte>, keyLen: int): (k: seq<Byte>)
    requires keyLen <= |key|
    ensures |k| == if keyLen > 0 then keyLen else 0
  {
    if keyLen > 0 then key[..keyLen] else []
  }

  /** The first part of hmacReset: replace a long key by its hash. */
  method Shorten(key: array<Byte>, keyLen: int) returns (k: array<Byte>, len: nat)
    requires keyLen <= key.Length && keyLen < LIMIT
    ensures k == key || fresh(k)
    ensures len <= k.Length && k[..len] == ShortKey(GivenKey(key[..], keyLen))
  {
    hide Context.Valid, Digest;
    k, len := key, if keyLen > 0 then keyLen else 0;
    if keyLen > 64 {
      var tempkey := new Byte[64];
      var tctx := new Context();
      var e := tctx.Reset();
      e := tctx.Input(key, 0, keyLen);
      assert [] + key[0..keyLen] == key[..keyLen];
      e := tctx.Result(tempkey);
      k, len := tempkey, 32;
    }
  }

  /** hmacReset */
  method HmacReset(ctx: HmacContext, key: array<Byte>, keyLen: int) returns (rc: int)
    requires ctx.Shape() && keyLen <= key.Length && keyLen < LIMIT
    requires key != ctx.kOpad && key != ctx.sha.messageBlock
    modifies ctx, ctx.kOpad, ctx.sha, ctx.sha.intermediateHash, ctx.sha.messageBlock
    ensures rc == SHA_SUCCESS
    ensures ctx.Shape() && ctx.sha.Valid() && ctx.blockSize == 64 && ctx.hashSize == 32
    ensures var k := BlockKey(GivenKey(key[..], keyLen));
            && ctx.kOpad[..64] == XorEach(k, 0x5c)
            && ctx.sha.Phase() == Absorbing(XorEach(k, 0x36))
  {
    hide Context.Valid, XorEach, Digest, GivenKey, ShortKey, Zeros;
    ctx.blockSize, ctx.hashSize := 64, 32;
    var kIpad := new Byte[128];
    var k, len := Shorten(key, keyLen);
    ghost var k0 := ShortKey(GivenKey(key[..], keyLen));
    FillPad(k, len, kIpad, 0x36);
    FillPad(k, len, ctx.kOpad, 0x5c);
    rc := ctx.sha.Reset();
    rc := ctx.sha.Input(kIpad, 0, 64);
    assert [] + kIpad[0..64] == kIpad[..64];
  }

  /** hmacResult: one context serves both hashes, and the digest buffer holds the inner one. */
  method HmacResult(ctx: HmacContext, digest: array<Byte>) returns (rc: int)
    requires ctx.Shape() && ctx.sha.Valid() && ctx.blockSize == 64 && ctx.hashSize == 32
    requires ctx.sha.Phase().Absorbing?
    requires digest.Length >= 32 && digest != ctx.kOpad && digest != ctx.sha.messageBlock
    modifies ctx.sha, ctx.sha.intermediateHash, ctx.sha.messageBlock, digest
    ensures rc == SHA_SUCCESS
    ensures digest[..32] == Digest(old(ctx.kOpad[..64]) + Digest(old(ctx.sha.Phase().bytes)))
    ensures digest[32..] == old(digest[32..])
  {
    hide Context.Valid, Digest;
    ghost var o := ctx.kOpad[..64];
    rc := ctx.sha.Result(digest);
    rc := ctx.sha.Reset();
    rc := ctx.sha.Input(ctx.kOpad, 0, ctx.blockSize);
    assert [] + ctx.kOpad[0..64] == o;
    rc := ctx.sha.Input(digest, 0, ctx.hashSize);
    assert digest[0..32] == digest[..32];
    rc := ctx.sha.Result(digest);
  }

  /** hmac: the message authentication code of section 2 of RFC 2104. */
  method ComputeHmac(text: array<Byte>, offset: nat, textLen: nat, key: array<Byte>, keyLen: int, digest: array<Byte>)
    returns (rc: int)
    requires offset + textLen <= text.Length && textLen + 64 < LIMIT
    requires keyLen <= key.Length && keyLen < LIMIT
    requires digest.Length >= 32 && digest != text && digest != key
    modifies digest
    ensures rc == SHA_SUCCESS
    ensures digest[..32] == Hmac(GivenKey(key[..], keyLen), text[offset..offset + textLen])
    ensures digest[32..] == old(digest[32..])
  {
    hide Context.Valid, Digest, XorEach, GivenKey, BlockKey;
    var ctx := new HmacContext();
    ghost var t := text[offset..offset + textLen];
    ghost var k := BlockKey(GivenKey(key[..], keyLen));
    rc := HmacReset(ctx, key, keyLen);
    rc := ctx.sha.Input(text, offset, textLen);
    assert ctx.sha.Phase() == Absorbing(XorEach(k, 0x36) + t);
    rc := HmacResult(ctx, digest);
  }

  // ----- hmac_sha256 and the key expansion -----

  /** An unsigned length handed over as a signed one. */
  function AsSigned(n: nat): (i: int)
    requires n < 0x1_0000_0000
    ensures i < 0x8000_0000 && (n < 0x8000_0000 <==> i == n) && (i != n ==> i < 0)
  {
    if n < 0x8000_0000 then n else n - 0x1_0000_0000
  }

  /** The key seen by hmac_sha256: its unsigned length becomes signed on the way, so that a key
      of 2^31 bytes or more counts as empty. */
  function UnsignedKey(key: seq<Byte>, keyLen: nat): (k: seq<Byte>)
    requires keyLen <= |key| && keyLen < 0x1_0000_0000
    ensures |k| < LIMIT
    ensures keyLen < 0x8000_0000 ==> k == key[..keyLen]
    ensures keyLen >= 0x8000_0000 ==> k == []
    ensures k == key[..keyLen] <==> keyLen < 0x8000_0000
  {
    GivenKey(key, AsSigned(keyLen))
  }

  /** hmac_sha256: the digest is computed in a buffer of its own and then copied, so the text may
      lie in the output array. */
  method HmacSha256(text: array<Byte>, offset: nat, textLen: nat, key: array<Byte>, keyLen: nat,
                    out: array<Byte>, at: nat, digestLength: nat)
    returns (rc: int)
    requires offset + textLen <= text.Length && textLen < 0x1_0000_0000
    requires keyLen <= key.Length && keyLen < 0x1_0000_0000
    requires at + digestLength <= out.Length && digestLength <= 64
    modifies out
    ensures rc == SHA_SUCCESS
    ensures out[..] == old(out[..at])
                       + (Hmac(UnsignedKey(old(key[..]), keyLen), old(text[offset..offset + textLen])) + Zeros(32))[..digestLength]
                       + old(out[at + digestLength..])
  {
    hide Hmac, GivenKey;
    var tmp := new Byte[64](_ => 0);
    assert tmp[32..] == Zeros(32);
    rc := ComputeHmac(text, offset, textLen, key, AsSigned(keyLen), tmp);
    assert tmp[..] == tmp[..32] + tmp[32..];
    CopyOut(tmp, digestLength, out, at);
  }

  /** memcpy */
  method CopyOut(from: array<Byte>, n: nat, to: array<Byte>, at: nat)
    requires n <= from.Length && at + n <= to.Length && from != to
    modifies to
    ensures to[..] == old(to[..at]) + from[..][..n] + old(to[at + n..])
  {
    ghost var before := to[..];
    for i := 0 to n
      invariant to[..] == before[..at] + from[..i] + before[at + i..]
    {
      to[at + i] := from[i];
    }
  }

  /** Link i of the chain T1 = HMAC(key, text), T(i+1) = HMAC(key, Ti). */
  function Link(key: seq<Byte>, text: seq<Byte>, i: nat): (t: seq<Byte>)
    requires |key| < LIMIT && |text| + 64 < LIMIT
    ensures i > 0 ==> |t| == 32
    ensures |t| + 64 < LIMIT
  {
    if i == 0 then text else Hmac(key, Link(key, text, i - 1))
  }

  /** The first n links, one after the other. */
  function Chain(key: seq<Byte>, text: seq<Byte>, n: nat): (s: seq<Byte>)
    requires |key| < LIMIT && |text| + 64 < LIMIT
    ensures |s| == 32 * n
  {
    if n == 0 then [] else Chain(key, text, n - 1) + Link(key, text, n)
  }

  /** The expanded key: the first len bytes of the chain. */
  function Expand(key: seq<Byte>, text: seq<Byte>, len: nat): (s: seq<Byte>)
    requires |key| < LIMIT && |text| + 64 < LIMIT
    ensures |s| == len
  {
    Chain(key, text, len / 32 + 1)[..len]
  }

  lemma {:induction false} ChainPrefix(key: seq<Byte>, text: seq<Byte>, m: nat, n: nat)
    requires |key| < LIMIT && |text| + 64 < LIMIT && m <= n
    ensures Chain(key, text, m) <= Chain(key, text, n)
    decreases n
  {
    hide Link;
    if m < n {
      ChainPrefix(key, text, m, n - 1);
    }
  }

  /** A shorter output is a prefix of a longer one. */
  lemma ExpandPrefix(key: seq<Byte>, text: seq<Byte>, short: nat, long: nat)
    requires |key| < LIMIT && |text| + 64 < LIMIT && short <= long
    ensures Expand(key, text, short) <= Expand(key, text, long)
  {
    hide Chain;
    ChainPrefix(key, text, short / 32 + 1, long / 32 + 1);
  }

  lemma {:induction false} ChainAt(key: seq<Byte>, text: seq<Byte>, n: nat, i: nat)
    requires |key| < LIMIT && |text| + 64 < LIMIT && i < n
    ensures Chain(key, text, n)[32 * i..32 * i + 32] == Link(key, text, i + 1)
    decreases n
  {
    hide Link;
    var last := Link(key, text, n);
    if i < n - 1 {
      ChainAt(key, text, n - 1, i);
      assert Chain(key, text, n)[32 * i..32 * i + 32] == Chain(key, text, n - 1)[32 * i..32 * i + 32];
    }
  }

  /** Block i of 32 bytes; the last one may be shorter. */
  function BlockAt(s: seq<Byte>, i: nat): (b: seq<Byte>)
    requires 32 * i <= |s|
    ensures |b| <= 32
  {
    if |s| < 32 * i + 32 then s[32 * i..] else s[32 * i..32 * i + 32]
  }

  lemma BlockOfExpansion(key: seq<Byte>, text: seq<Byte>, len: nat, i: nat)
    requires |key| < LIMIT && |text| + 64 < LIMIT && 32 * i < len
    ensures BlockAt(Expand(key, text, len), i) <= Link(key, text, i + 1)
    ensures 32 * i + 32 <= len ==> BlockAt(Expand(key, text, len), i) == Link(key, text, i + 1)
  {
    hide Link, Chain;
    var c := Chain(key, text, len / 32 + 1);
    ChainAt(key, text, len / 32 + 1, i);
    SliceOfSlice(c, len, 32 * i, if len < 32 * i + 32 then len else 32 * i + 32, 32 * i + 32);
  }

  /** The output, said of its blocks: the first is the code of the text and every other the code of
      the block before it; the last one may be cut. */
  lemma ExpandLaw(key: seq<Byte>, text: seq<Byte>, len: nat, i: nat)
    requires |key| < LIMIT && |text| + 64 < LIMIT && 32 * i < len
    ensures var s := Expand(key, text, len);
            BlockAt(s, i) <= Hmac(key, if i == 0 then text else BlockAt(s, i - 1))
  {
    hide Hmac, Expand, BlockAt;
    BlockOfExpansion(key, text, len, i);
    if i > 0 {
      BlockOfExpansion(key, text, len, i - 1);
    }
  }

  lemma SliceOfSlice(c: seq<Byte>, len: nat, lo: nat, mid: nat, hi: nat)
    requires lo <= mid <= len <= |c| && mid <= hi <= |c|
    ensures c[..len][lo..mid] == c[lo..hi][..mid - lo]
  {
  }

  /** One call out of KD_hmac_sha256, of at most one digest. */
  method WriteLink(text: array<Byte>, offset: nat, textLen: nat, key: array<Byte>, keyLen: nat,
                   out: array<Byte>, at: nat, n: nat)
    requires offset + textLen <= text.Length && textLen < 0x1_0000_0000
    requires keyLen <= key.Length && keyLen < 0x1_0000_0000
    requires at + n <= out.Length && n <= 32 && key != out
    modifies out
    ensures out[..at + n] == old(out[..at]) + Hmac(UnsignedKey(key[..], keyLen), old(text[offset..offset + textLen]))[..n]
    ensures forall e :: at + n <= e <= out.Length ==> out[e..] == old(out[e..])
  {
    hide Hmac, UnsignedKey;
    ghost var h := Hmac(UnsignedKey(key[..], keyLen), text[offset..offset + textLen]);
    ghost var before, all := out[..at], out[..];
    var rc := HmacSha256(text, offset, textLen, key, keyLen, out, at, n);
    assert (h + Zeros(32))[..n] == h[..n];
    JoinParts(out[..], all, before, h[..n], all[at + n..]);
  }

  lemma JoinParts(s: seq<Byte>, all: seq<Byte>, a: seq<Byte>, b: seq<Byte>, c: seq<Byte>)
    requires s == a + b + c && |s| == |all| && c == all[|a| + |b|..]
    ensures s[..|a| + |b|] == a + b
    ensures forall e :: |a| + |b| <= e <= |s| ==> s[e..] == all[e..]
  {
  }

  lemma NextLink(key: seq<Byte>, text: seq<Byte>, i: nat)
    requires |key| < LIMIT && |text| + 64 < LIMIT
    ensures Link(key, text, i + 1) == Hmac(key, Link(key, text, i))
    ensures Chain(key, text, i + 1) == Chain(key, text, i) + Hmac(key, Link(key, text, i))
  {
    hide Hmac;
  }

  lemma LastLink(key: seq<Byte>, text: seq<Byte>, i: nat, n: nat)
    requires |key| < LIMIT && |text| + 64 < LIMIT && n < 32
    ensures Expand(key, text, 32 * i + n) == Chain(key, text, i) + Hmac(key, Link(key, text, i))[..n]
    ensures n == 0 ==> Expand(key, text, 32 * i + n) == Chain(key, text, i)
  {
    hide Hmac, Link, Chain;
    NextLink(key, text, i);
    assert (32 * i + n) / 32 == i;
  }

  /** KD_hmac_sha256: text may share memory with the output, the key must not. */
  method KdHmacSha256(text: array<Byte>, textLen: nat, key: array<Byte>, keyLen: nat, out: array<Byte>, outLen: nat)
    requires textLen <= text.Length && textLen < 0x1_0000_0000
    requires keyLen <= key.Length && keyLen < 0x1_0000_0000
    requires outLen <= out.Length && key != out
    modifies out
    ensures out[..outLen] == Expand(UnsignedKey(key[..], keyLen), old(text[..textLen]), outLen)
    ensures out[outLen..] == old(out[outLen..])
  {
    hide Hmac, UnsignedKey, Link, Chain, Expand;
    ghost var k, t, tail := UnsignedKey(key[..], keyLen), text[..textLen], out[outLen..];
    StartOfChain(k, t);
    var cur, off: nat, len: nat := text, 0, textLen;
    var i: nat, length: nat := 0, outLen;
    while length / 32 > 0
      invariant outLen == 32 * i + length
      invariant off + len <= cur.Length && len < 0x1_0000_0000
      invariant cur[off..off + len] == Link(k, t, i)
      invariant out[..32 * i] == Chain(k, t, i)
      invariant out[outLen..] == tail
    {
      NextLink(k, t, i);
      WriteLink(cur, off, len, key, keyLen, out, 32 * i, 32);
      assert Link(k, t, i + 1)[..32] == Link(k, t, i + 1);
      assert out[..32 * i + 32][32 * i..] == out[32 * i..32 * i + 32];
      cur, off, len := out, 32 * i, 32;
      i, length := i + 1, length - 32;
    }
    LastLink(k, t, i, length);
    if length > 0 {
      WriteLink(cur, off, len, key, keyLen, out, 32 * i, length);
    }
  }

  lemma StartOfChain(key: seq<Byte>, text: seq<Byte>)
    requires |key| < LIMIT && |text| + 64 < LIMIT
    ensures Link(key, text, 0) == text && Chain(key, text, 0) == []
  {
  }
}
