/** The streaming SHA-256 context (wapid/hmac.c:52-371). */
module Sha256 {

  import opened Sha256Spec

  const SHA_SUCCESS := 0
  const SHA_NULL := 1
  const SHA_STATE_ERROR := 3

  function HashOf(ws: seq<Word>): Hash
    requires |ws| == 8
  {
    Hash(ws[0], ws[1], ws[2], ws[3], ws[4], ws[5], ws[6], ws[7])
  }

  // ----- One block -----

  /** The first loop that fills W. */
  method LoadBlock(block: array<Byte>, w: array<Word>)
    requires block.Length == 64 && w.Length == ROUNDS
    modifies w
    ensures forall k :: 0 <= k < 16 ==> w[k] == Schedule(block[..], k)
  {
    hide BigEndian, SmallSigma0, SmallSigma1, Plus;
    for t := 0 to 16
      invariant forall k :: 0 <= k < t ==> w[k] == Schedule(block[..], k)
    {
      w[t] := BigEndian(block[4 * t], block[4 * t + 1], block[4 * t + 2], block[4 * t + 3]);
    }
  }

  /** The second loop that fills W. */
  method ExpandBlock(ghost block: Block, w: array<Word>)
    requires w.Length == ROUNDS
    requires forall k :: 0 <= k < 16 ==> w[k] == Schedule(block, k)
    modifies w
    ensures forall k :: 0 <= k < ROUNDS ==> w[k] == Schedule(block, k)
  {
    hide BigEndian, SmallSigma0, SmallSigma1, Plus;
    for t := 16 to ROUNDS
      invariant forall k :: 0 <= k < t ==> w[k] == Schedule(block, k)
    {
      w[t] := Plus(Plus(Plus(SmallSigma1(w[t - 2]), w[t - 7]), SmallSigma0(w[t - 15])), w[t - 16]);
    }
  }

  /** The 64 rounds. */
  method RunRounds(s: Hash, block: array<Byte>) returns (r: Hash)
    requires block.Length == 64
    ensures r == Rounds(s, block[..], ROUNDS)
  {
    hide Schedule, BigSigma0, BigSigma1, Ch, Maj, Plus;
    var w := new Word[ROUNDS];
    LoadBlock(block, w);
    ExpandBlock(block[..], w);
    var a, b, c, d, e, f, g, h := s.a, s.b, s.c, s.d, s.e, s.f, s.g, s.h;
    for t := 0 to ROUNDS
      invariant Hash(a, b, c, d, e, f, g, h) == Rounds(s, block[..], t)
    {
      var temp1 := Plus(Plus(Plus(Plus(h, BigSigma1(e)), Ch(e, f, g)), K(t)), w[t]);
      var temp2 := Plus(BigSigma0(a), Maj(a, b, c));
      h := g;
      g := f;
      f := e;
      e := Plus(d, temp1);
      d := c;
      c := b;
      b := a;
      a := Plus(temp1, temp2);
    }
    return Hash(a, b, c, d, e, f, g, h);
  }

  // ----- The context -----

  /** The whole blocks of a message, and the bytes after them. */
  function Done(m: seq<Byte>): (d: seq<Byte>)
    ensures |d| == |m| - |m| % 64 && |d| % 64 == 0
  {
    m[..|m| - |m| % 64]
  }

  function Rest(m: seq<Byte>): (r: seq<Byte>)
    ensures |r| == |m| % 64
  {
    m[|m| - |m| % 64..]
  }

  /** What a context stands for: a message still growing, a finished message, or an error. */
  datatype Phase = Absorbing(bytes: seq<Byte>) | Finished(bytes: seq<Byte>) | Failed(code: int)

  /** What a call of SHA256Input with some bytes does. */
  function AfterInput(p: Phase, data: seq<Byte>): Phase {
    if data == [] then p
    else match p
      case Absorbing(bytes) => if |bytes| + |data| < LIMIT then Absorbing(bytes + data) else Failed(1)
      case Finished(_) => Failed(SHA_STATE_ERROR)
      case Failed(code) => Failed(code)
  }

  /** What SHA256Input returns when it is given some bytes. */
  function InputCode(p: Phase): int {
    match p
    case Absorbing(_) => SHA_SUCCESS
    case Finished(_) => SHA_STATE_ERROR
    case Failed(code) => code
  }

  class Context {
    const intermediateHash: array<Word>
    const messageBlock: array<Byte>
    var messageBlockIndex: nat
    var lengthHigh: nat
    var lengthLow: nat
    var computed: bool
    var corrupted: int
    ghost var consumed: seq<Byte>

    ghost predicate Shape()
      reads this
    {
      && intermediateHash.Length == 8
      && messageBlock.Length == 64
      && lengthHigh < 0x1_0000_0000
      && lengthLow < 0x1_0000_0000
    }

    /** The buffer, its index, the two-word bit count and the intermediate hash, in terms of the
        bytes consumed so far. */
    ghost predicate Absorbed(bytes: seq<Byte>)
      requires Shape()
      reads this, intermediateHash, messageBlock
    {
      var n := |bytes|;
      && n < LIMIT
      && lengthHigh * 0x1_0000_0000 + lengthLow == 8 * n
      && messageBlockIndex == n % 64
      && messageBlock[..n % 64] == Rest(bytes)
      && HashOf(intermediateHash[..]) == HashBlocks(Done(bytes))
    }

    ghost predicate Valid()
      reads this, intermediateHash, messageBlock
      ensures Valid() ==> Shape()
    {
      && Shape()
      && (corrupted == 0 && !computed ==> Absorbed(consumed))
      && (corrupted == 0 && computed ==> HashOf(intermediateHash[..]) == HashBlocks(Pad(consumed)))
      && (corrupted == 0 ==> |consumed| < LIMIT)
      && (corrupted != 0 && computed ==> corrupted == SHA_STATE_ERROR)
    }

    ghost function Phase(): Phase
      reads this
    {
      if corrupted != 0 then Failed(corrupted)
      else if computed then Finished(consumed)
      else Absorbing(consumed)
    }

    /** A context as declared on the stack; it becomes usable with Reset. */
    constructor ()
      ensures Shape() && fresh(intermediateHash) && fresh(messageBlock)
    {
      intermediateHash := new Word[8];
      messageBlock := new Byte[64];
      messageBlockIndex, lengthHigh, lengthLow := 0, 0, 0;
      computed, corrupted := false, 0;
      consumed := [];
    }

    /** The assignments to the eight words of the hash value. */
    method StoreHash(s: Hash)
      requires Shape()
      modifies intermediateHash
      ensures HashOf(intermediateHash[..]) == s
    {
      intermediateHash[0], intermediateHash[1] := s.a, s.b;
      intermediateHash[2], intermediateHash[3] := s.c, s.d;
      intermediateHash[4], intermediateHash[5] := s.e, s.f;
      intermediateHash[6], intermediateHash[7] := s.g, s.h;
    }

    /** SHA256Reset */
    method Reset() returns (rc: int)
      requires Shape()
      modifies this, intermediateHash
      ensures Valid() && Phase() == Absorbing([])
      ensures rc == SHA_SUCCESS
    {
      hide Compress, Pad, HashOf, HashBlocks, Done, Rest;
      NothingAbsorbed();
      lengthLow, lengthHigh, messageBlockIndex := 0, 0, 0;
      StoreHash(H0);
      computed, corrupted := false, 0;
      consumed := [];
      return SHA_SUCCESS;
    }

    /** SHA256ProcessMessageBlock */
    method ProcessMessageBlock()
      requires Shape()
      modifies intermediateHash, this`messageBlockIndex
      ensures HashOf(intermediateHash[..]) == Compress(old(HashOf(intermediateHash[..])), messageBlock[..])
      ensures messageBlockIndex == 0
    {
      hide Rounds, Plus;
      var s := Hash(intermediateHash[0], intermediateHash[1], intermediateHash[2], intermediateHash[3],
                    intermediateHash[4], intermediateHash[5], intermediateHash[6], intermediateHash[7]);
      var r := RunRounds(s, messageBlock);
      StoreHash(AddHash(s, r));
      messageBlockIndex := 0;
    }

    /** SHA224_256AddLength with 8 bits: the low word carries into the high word, and the overflow
        of both marks the context. */
    method AddLength()
      requires Shape()
      modifies this`lengthLow, this`lengthHigh, this`corrupted
      ensures Shape()
      ensures var bits := old(lengthHigh) * 0x1_0000_0000 + old(lengthLow) + 8;
              if bits < 0x1_0000_0000_0000_0000
              then corrupted == 0 && lengthHigh * 0x1_0000_0000 + lengthLow == bits
              else corrupted == 1
    {
      var addTemp := lengthLow;
      lengthLow := (lengthLow + 8) % 0x1_0000_0000;
      corrupted := 0;
      if lengthLow < addTemp {
        lengthHigh := (lengthHigh + 1) % 0x1_0000_0000;
        if lengthHigh == 0 {
          corrupted := 1;
        }
      }
    }

    /** One turn of the loop of SHA256Input. */
    method AbsorbByte(b: Byte)
      requires Valid() && Phase().Absorbing?
      modifies this, intermediateHash, messageBlock
      ensures Valid() && Phase() == AfterInput(old(Phase()), [b])
    {
      hide Compress, Pad, HashOf, HashBlocks, Rest, Done;
      messageBlock[messageBlockIndex] := b;
      messageBlockIndex := messageBlockIndex + 1;
      AddLength();
      if corrupted == 0 {
        if messageBlockIndex == 64 {
          assert messageBlock[..] == Rest(consumed) + [b];
          BlockCompletes(consumed, b, messageBlock[..]);
          ProcessMessageBlock();
        } else {
          RestGrows(consumed, b);
        }
        consumed := consumed + [b];
      }
    }

    /** SHA256Input */
    method Input(message: array?<Byte>, offset: nat, length: nat) returns (rc: int)
      requires Valid()
      requires message != null ==> offset + length <= message.Length && message != messageBlock
      modifies this, intermediateHash, messageBlock
      ensures Valid()
      ensures length == 0 ==> rc == SHA_SUCCESS && Phase() == old(Phase())
      ensures length > 0 && message == null ==> rc == SHA_NULL && Phase() == old(Phase())
      ensures length > 0 && message != null ==>
                && Phase() == AfterInput(old(Phase()), message[offset..offset + length])
                && rc == InputCode(old(Phase()))
    {
      hide Absorbed, HashBlocks, HashOf, Pad;
      if length == 0 {
        return SHA_SUCCESS;
      }
      if message == null {
        return SHA_NULL;
      }
      if computed {
        corrupted := SHA_STATE_ERROR;
        return SHA_STATE_ERROR;
      }
      if corrupted != 0 {
        return corrupted;
      }
      AbsorbBytes(message, offset, length);
      return SHA_SUCCESS;
    }

    /** The loop of SHA256Input: it stops early when the length counter overflows. */
    method AbsorbBytes(message: array<Byte>, offset: nat, length: nat)
      requires Valid() && Phase().Absorbing?
      requires offset + length <= message.Length && message != messageBlock
      modifies this, intermediateHash, messageBlock
      ensures Valid() && Phase() == AfterInput(old(Phase()), message[offset..offset + length])
    {
      hide Valid;
      ghost var before, data := Phase(), message[offset..offset + length];
      var i := 0;
      while i < length && corrupted == 0
        invariant 0 <= i <= length && Valid()
        invariant message[offset..offset + length] == data
        invariant Phase() == AfterInput(before, data[..i])
      {
        AbsorbByte(message[offset + i]);
        AfterInputAppend(before, data[..i], [data[i]]);
        assert data[..i + 1] == data[..i] + [data[i]];
        i := i + 1;
      }
      AfterInputAppend(before, data[..i], data[i..]);
      assert data == data[..i] + data[i..];
    }

    /** Zero bytes up to position upTo of the buffer. */
    method FillZeros(upTo: nat)
      requires Shape() && messageBlockIndex <= upTo <= 64
      modifies messageBlock, this`messageBlockIndex
      ensures messageBlockIndex == upTo
      ensures messageBlock[..upTo] == old(messageBlock[..messageBlockIndex]) + Zeros(upTo - old(messageBlockIndex))
    {
      ghost var start, kept := messageBlockIndex, messageBlock[..messageBlockIndex];
      while messageBlockIndex < upTo
        invariant start <= messageBlockIndex <= upTo
        invariant messageBlock[..messageBlockIndex] == kept + Zeros(messageBlockIndex - start)
      {
        messageBlock[messageBlockIndex] := 0;
        messageBlockIndex := messageBlockIndex + 1;
      }
    }

    /** The message length in the last eight octets. */
    method StoreLength()
      requires Shape()
      modifies messageBlock
      ensures messageBlock[..56] == old(messageBlock[..56])
      ensures messageBlock[56..] == LengthBytes(lengthHigh * 0x1_0000_0000 + lengthLow)
    {
      hide ToByte, LengthBytes;
      LengthWords(lengthHigh, lengthLow);
      messageBlock[56] := ToByte(lengthHigh / 0x100_0000);
      messageBlock[57] := ToByte(lengthHigh / 0x1_0000);
      messageBlock[58] := ToByte(lengthHigh / 0x100);
      messageBlock[59] := ToByte(lengthHigh);
      messageBlock[60] := ToByte(lengthLow / 0x100_0000);
      messageBlock[61] := ToByte(lengthLow / 0x1_0000);
      messageBlock[62] := ToByte(lengthLow / 0x100);
      messageBlock[63] := ToByte(lengthLow);
    }

    /** The padding when it does not leave room for the length: this block and another one. */
    method PadIntoSecondBlock()
      requires Valid() && Phase().Absorbing? && messageBlockIndex >= 56
      modifies this`messageBlockIndex, intermediateHash, messageBlock
      ensures HashOf(intermediateHash[..]) == HashBlocks(Pad(consumed))
    {
      hide Compress, HashBlocks, Pad, HashOf, LengthBytes, Rest, Done;
      ghost var m, r := consumed, Rest(consumed);
      CloseBlock();
      LengthBlock();
      TwoBlocks(m, r + [0x80] + Zeros(63 - |r|), Zeros(56) + LengthBytes(8 * |m|));
    }

    /** The first of two padding blocks: the pad byte and zeros. */
    method CloseBlock()
      requires Shape() && 56 <= messageBlockIndex < 64
      modifies this`messageBlockIndex, intermediateHash, messageBlock
      ensures messageBlockIndex == 0
      ensures var first: Block := old(messageBlock[..messageBlockIndex]) + [0x80] + Zeros(63 - old(messageBlockIndex));
              HashOf(intermediateHash[..]) == Compress(old(HashOf(intermediateHash[..])), first)
    {
      hide Compress, HashOf;
      ghost var first := messageBlock[..messageBlockIndex] + [0x80] + Zeros(63 - messageBlockIndex);
      messageBlock[messageBlockIndex] := 0x80;
      messageBlockIndex := messageBlockIndex + 1;
      FillZeros(64);
      assert messageBlock[..] == first;
      ProcessMessageBlock();
    }

    /** The second one: zeros and the length. */
    method LengthBlock()
      requires Shape() && messageBlockIndex == 0
      modifies this`messageBlockIndex, intermediateHash, messageBlock
      ensures var second: Block := Zeros(56) + LengthBytes(lengthHigh * 0x1_0000_0000 + lengthLow);
              HashOf(intermediateHash[..]) == Compress(old(HashOf(intermediateHash[..])), second)
    {
      hide Compress, HashOf, LengthBytes;
      FillZeros(56);
      StoreLength();
      assert messageBlock[..] == Zeros(56) + LengthBytes(lengthHigh * 0x1_0000_0000 + lengthLow);
      ProcessMessageBlock();
    }

    /** The padding when the length fits into the current block. */
    method PadIntoBlock()
      requires Valid() && Phase().Absorbing? && messageBlockIndex < 56
      modifies this`messageBlockIndex, intermediateHash, messageBlock
      ensures HashOf(intermediateHash[..]) == HashBlocks(Pad(consumed))
    {
      hide Compress, HashBlocks, Pad, HashOf, LengthBytes, Rest, Done;
      ghost var m, r := consumed, Rest(consumed);
      messageBlock[messageBlockIndex] := 0x80;
      messageBlockIndex := messageBlockIndex + 1;
      FillZeros(56);
      StoreLength();
      ghost var last := messageBlock[..];
      assert last == r + [0x80] + Zeros(55 - |r|) + LengthBytes(8 * |m|);
      ProcessMessageBlock();
      OneBlock(m, last);
    }

    /** The loop that writes the digest, most significant byte of every word first. */
    method WriteDigest(digest: array<Byte>)
      requires Shape() && digest.Length >= 32 && digest != messageBlock
      modifies digest
      ensures digest[..32] == HashBytes(HashOf(intermediateHash[..]))
      ensures digest[32..] == old(digest[32..])
    {
      hide HashBytes, HashOf, WordBytes;
      ghost var ws := intermediateHash[..];
      ghost var d := HashBytes(HashOf(ws));
      for i := 0 to 32
        invariant digest[..i] == d[..i]
        invariant digest[32..] == old(digest[32..])
      {
        DigestByte(ws, i);
        digest[i] := WordBytes(intermediateHash[i / 4])[i % 4];
      }
    }

    /** SHA256Result: pads once, and gives the same digest when called again. */
    method Result(digest: array?<Byte>) returns (rc: int)
      requires Valid()
      requires digest != null ==> digest.Length >= 32 && digest != messageBlock
      modifies this, intermediateHash, messageBlock, digest
      ensures Valid()
      ensures digest == null ==> rc == SHA_NULL && Phase() == old(Phase())
      ensures digest != null && old(Phase()).Failed? ==>
                rc == old(Phase()).code && Phase() == old(Phase()) && digest[..] == old(digest[..])
      ensures digest != null && !old(Phase()).Failed? ==>
                && rc == SHA_SUCCESS
                && Phase() == Finished(old(Phase()).bytes)
                && digest[..32] == Digest(Phase().bytes)
                && digest[32..] == old(digest[32..])
    {
      hide HashBlocks, HashOf, HashBytes, Pad;
      if digest == null {
        return SHA_NULL;
      }
      if corrupted != 0 {
        return corrupted;
      }
      if !computed {
        if messageBlockIndex >= 56 {
          PadIntoSecondBlock();
        } else {
          PadIntoBlock();
        }
        Clear();
        lengthLow, lengthHigh := 0, 0;
        computed := true;
      }
      WriteDigest(digest);
      return SHA_SUCCESS;
    }

    /** memset of the buffer */
    method Clear()
      requires Shape()
      modifies messageBlock
      ensures messageBlock[..] == Zeros(64)
    {
      for i := 0 to 64
        invariant messageBlock[..i] == Zeros(i)
      {
        messageBlock[i] := 0;
      }
    }
  }

  lemma NothingAbsorbed()
    ensures HashBlocks(Done([])) == H0 && Rest([]) == []
  {
    hide Compress;
  }

  lemma SameResidue(x: nat, y: nat, k: nat)
    requires x == 256 * k + y
    ensures x % 256 == y % 256
  {
    assert x == 256 * (k + y / 256) + y % 256;
  }

  lemma SameByte(x: nat, y: nat, k: nat)
    requires x == 256 * k + y
    ensures ToByte(x) == ToByte(y)
  {
    SameResidue(x, y, k);
  }

  /** The 64-bit length, read off its two words. */
  lemma LengthWords(high: nat, low: nat)
    requires high < 0x1_0000_0000 && low < 0x1_0000_0000
    ensures LengthBytes(high * 0x1_0000_0000 + low) ==
            [ToByte(high / 0x100_0000), ToByte(high / 0x1_0000), ToByte(high / 0x100), ToByte(high),
             ToByte(low / 0x100_0000), ToByte(low / 0x1_0000), ToByte(low / 0x100), ToByte(low)]
  {
    hide ToByte;
    var bits := high * 0x1_0000_0000 + low;
    HighWord(high, low);
    LowWord(high, low);
    SameByte(bits / 0x100_0000, low / 0x100_0000, high);
    SameByte(bits / 0x1_0000, low / 0x1_0000, high * 0x100);
    SameByte(bits / 0x100, low / 0x100, high * 0x1_0000);
    SameByte(bits, low, high * 0x100_0000);
  }

  lemma HighWord(high: nat, low: nat)
    requires low < 0x1_0000_0000
    ensures var bits := high * 0x1_0000_0000 + low;
            && bits / 0x100_0000_0000_0000 == high / 0x100_0000 && bits / 0x1_0000_0000_0000 == high / 0x1_0000
            && bits / 0x100_0000_0000 == high / 0x100 && bits / 0x1_0000_0000 == high
  {
  }

  lemma LowWord(high: nat, low: nat)
    ensures var bits := high * 0x1_0000_0000 + low;
            && bits / 0x100_0000 == 256 * high + low / 0x100_0000
            && bits / 0x1_0000 == 256 * (high * 0x100) + low / 0x1_0000
            && bits / 0x100 == 256 * (high * 0x1_0000) + low / 0x100
  {
  }

  lemma DigestByte(ws: seq<Word>, i: nat)
    requires |ws| == 8 && i < 32
    ensures HashBytes(HashOf(ws))[i] == WordBytes(ws[i / 4])[i % 4]
  {
    hide WordBytes;
    match i / 4
      case 0 => case 1 => case 2 => case 3 => case 4 => case 5 => case 6 => case _ =>
  }

  lemma OneBlock(m: seq<Byte>, last: Block)
    requires |m| % 64 < 56
    requires last == Rest(m) + [0x80] + Zeros(55 - |m| % 64) + LengthBytes(8 * |m|)
    ensures HashBlocks(Pad(m)) == Compress(HashBlocks(Done(m)), last)
  {
    hide Compress, LengthBytes, HashBlocks;
    assert ZeroCount(|m|) == 55 - |m| % 64;
    assert m == Done(m) + Rest(m);
    assert Pad(m) == Done(m) + last;
    HashAppend(Done(m), last);
  }

  lemma TwoBlocks(m: seq<Byte>, first: Block, second: Block)
    requires |m| % 64 >= 56
    requires first == Rest(m) + [0x80] + Zeros(63 - |m| % 64)
    requires second == Zeros(56) + LengthBytes(8 * |m|)
    ensures HashBlocks(Pad(m)) == Compress(Compress(HashBlocks(Done(m)), first), second)
  {
    hide Compress, LengthBytes, HashBlocks;
    assert ZeroCount(|m|) == 63 - |m| % 64 + 56;
    assert m == Done(m) + Rest(m);
    assert Zeros(63 - |m| % 64 + 56) == Zeros(63 - |m| % 64) + Zeros(56);
    assert Pad(m) == Done(m) + first + second;
    HashAppend(Done(m), first);
    HashAppend(Done(m) + first, second);
  }

  lemma AfterInputAppend(p: Phase, u: seq<Byte>, v: seq<Byte>)
    ensures AfterInput(AfterInput(p, u), v) == AfterInput(p, u + v)
  {
    if u == [] {
      assert u + v == v;
    } else if v == [] {
      assert u + v == u;
    } else if p.Absorbing? {
      assert p.bytes + (u + v) == p.bytes + u + v;
    }
  }

  /** When a call with some bytes fails: on a finished context with the state error 3, on a failed one
      with the error it has; and the context fails exactly if it was so or the message reaches 2^64
      bits. */
  lemma InputLaw(p: Phase, data: seq<Byte>)
    requires data != []
    ensures p.Finished? ==> InputCode(p) == 3 && AfterInput(p, data) == Failed(3)
    ensures p.Failed? ==> InputCode(p) == p.code && AfterInput(p, data) == p
    ensures p.Absorbing? ==>
              && InputCode(p) == 0
              && (AfterInput(p, data).Failed? <==> 8 * |p.bytes + data| >= 0x1_0000_0000_0000_0000)
              && (AfterInput(p, data).Absorbing? ==> AfterInput(p, data).bytes == p.bytes + data)
  {
  }

  /** A run of SHA256Input calls. */
  function AfterInputs(p: Phase, pieces: seq<seq<Byte>>): Phase {
    if pieces == [] then p
    else AfterInput(AfterInputs(p, pieces[..|pieces| - 1]), pieces[|pieces| - 1])
  }

  function Concat(pieces: seq<seq<Byte>>): seq<Byte> {
    if pieces == [] then []
    else Concat(pieces[..|pieces| - 1]) + pieces[|pieces| - 1]
  }

  /** However a message is cut into calls of SHA256Input, the context ends up the same: it has
      absorbed the concatenation, or it has failed if that has 2^64 bits or more. */
  lemma {:induction false} CuttingIsIrrelevant(p: Phase, pieces: seq<seq<Byte>>)
    ensures AfterInputs(p, pieces) == AfterInput(p, Concat(pieces))
  {
    if pieces != [] {
      var n := |pieces| - 1;
      CuttingIsIrrelevant(p, pieces[..n]);
      AfterInputAppend(p, Concat(pieces[..n]), pieces[n]);
    }
  }

  ghost function Contents(pieces: seq<array<Byte>>): (s: seq<seq<Byte>>)
    reads pieces
    ensures |s| == |pieces| && forall i :: 0 <= i < |pieces| ==> s[i] == pieces[i][..]
  {
    seq(|pieces|, i requires 0 <= i < |pieces| reads pieces => pieces[i][..])
  }

  /** A call of SHA256Input for each piece. */
  method InputPieces(ctx: Context, pieces: seq<array<Byte>>)
    requires ctx.Valid() && ctx.messageBlock !in pieces
    modifies ctx, ctx.intermediateHash, ctx.messageBlock
    ensures ctx.Valid() && ctx.Phase() == AfterInputs(old(ctx.Phase()), old(Contents(pieces)))
  {
    hide Context.Valid, Context.Absorbed, AfterInput;
    ghost var start, all := ctx.Phase(), Contents(pieces);
    for i := 0 to |pieces|
      invariant ctx.Valid() && ctx.Phase() == AfterInputs(start, all[..i])
    {
      var p := pieces[i];
      assert p[0..p.Length] == all[i];
      assert all[..i + 1][..i] == all[..i];
      NoInput(ctx.Phase());
      var rc := ctx.Input(p, 0, p.Length);
    }
    assert all[..|pieces|] == all;
  }

  /** A whole use of a context: reset, any number of inputs, result. */
  method HashPieces(pieces: seq<array<Byte>>, digest: array<Byte>) returns (rc: int)
    requires digest.Length >= 32
    modifies digest
    ensures var m := Concat(old(Contents(pieces)));
            if |m| < LIMIT
            then rc == SHA_SUCCESS && digest[..32] == Digest(m) && digest[32..] == old(digest[32..])
            else rc == 1 && digest[..] == old(digest[..])
  {
    hide Digest, Context.Valid, Context.Absorbed, AfterInput, AfterInputs, Concat;
    ghost var all := Contents(pieces);
    var ctx := new Context();
    rc := ctx.Reset();
    assert Contents(pieces) == all;
    InputPieces(ctx, pieces);
    CuttingIsIrrelevant(Absorbing([]), all);
    FromNothing(Concat(all));
    rc := ctx.Result(digest);
  }

  lemma NoInput(p: Phase)
    ensures AfterInput(p, []) == p
  {
  }

  lemma FromNothing(data: seq<Byte>)
    ensures AfterInput(Absorbing([]), data) == if |data| < LIMIT then Absorbing(data) else Failed(1)
  {
    assert [] + data == data;
  }

  /** mhash_sha256 */
  method Mhash(data: array<Byte>, length: nat, digest: array<Byte>) returns (size: int)
    requires length <= data.Length && length < LIMIT && digest.Length >= 32
    modifies digest
    ensures size == 32
    ensures digest[..32] == Digest(old(data[..length])) && digest[32..] == old(digest[32..])
  {
    hide Digest, Context.Valid, Context.Absorbed;
    var ctx := new Context();
    var rc := ctx.Reset();
    rc := ctx.Input(data, 0, length);
    assert data[0..length] == data[..length];
    assert [] + data[..length] == data[..length];
    rc := ctx.Result(digest);
    return 32;
  }

  lemma RestGrows(m: seq<Byte>, b: Byte)
    requires |m| % 64 < 63
    ensures Done(m + [b]) == Done(m) && Rest(m + [b]) == Rest(m) + [b]
  {
    assert |m + [b]| % 64 == |m| % 64 + 1;
  }

  lemma BlockCompletes(m: seq<Byte>, b: Byte, block: Block)
    requires |m| % 64 == 63 && block == Rest(m) + [b]
    ensures Rest(m + [b]) == []
    ensures HashBlocks(Done(m + [b])) == Compress(HashBlocks(Done(m)), block)
  {
    hide Compress;
    assert |m + [b]| % 64 == 0;
    assert Done(m + [b]) == Done(m) + block;
    HashAppend(Done(m), block);
  }

  lemma HashAppend(m: seq<Byte>, block: Block)
    requires |m| % 64 == 0
    ensures HashBlocks(m + block) == Compress(HashBlocks(m), block)
  {
    hide Compress;
    assert (m + block)[..|m|] == m && (m + block)[|m|..] == block;
  }
}
