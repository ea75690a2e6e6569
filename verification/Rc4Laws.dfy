/** What determines the RC4 of athr-hostap/wlantest/wep.c:22-48, said without its step functions:
    where box and index stand after any number of swaps, how the key is found again in them, and
    which entry each byte of the key stream is. */
module Rc4Laws {

  import opened Arithmetic
  import opened Crc32
  import opened Wep

  /** Two boxes that differ by the exchange of two entries. */
  predicate Exchanged(s: Box, t: Box, i: Octet, j: Octet) {
    && t[i] == s[j] && t[j] == s[i]
    && forall p :: 0 <= p < 256 && p != i && p != j ==> t[p] == s[p]
  }

  // ----- The key schedule -----

  function BoxAt(key: seq<Byte>, n: nat): Box
    requires |key| > 0 && n <= SWAPS
  {
    KeySchedule(key, n).s
  }

  function IndexAt(key: seq<Byte>, n: nat): Octet
    requires |key| > 0 && n <= SWAPS
  {
    KeySchedule(key, n).j
  }

  /** The key byte used in swap n. */
  function KeyAt(key: seq<Byte>, n: nat): Octet
    requires |key| > 0
  {
    key[n % |key|] as int
  }

  lemma ScheduleStarts(key: seq<Byte>, p: nat)
    requires |key| > 0 && p < 256
    ensures BoxAt(key, 0)[p] == p && IndexAt(key, 0) == 0
  {
  }

  /** Swap n exchanges entry n with the entry at the new index, which the old index, entry n and the
      key byte give. */
  lemma ScheduleLaw(key: seq<Byte>, n: nat)
    requires |key| > 0 && n < SWAPS
    ensures IndexAt(key, n + 1) == (IndexAt(key, n) + BoxAt(key, n)[n] + KeyAt(key, n)) % 256
    ensures Exchanged(BoxAt(key, n), BoxAt(key, n + 1), n, IndexAt(key, n + 1))
  {
  }

  /** The entries met and the key bytes used in the first n swaps. */
  function Total(key: seq<Byte>, n: nat): nat
    requires |key| > 0 && n <= SWAPS
  {
    if n == 0 then 0 else Total(key, n - 1) + BoxAt(key, n - 1)[n - 1] + KeyAt(key, n - 1)
  }

  lemma AddMod(a: nat, b: nat)
    ensures (a % 256 + b) % 256 == (a + b) % 256
  {
  }

  /** The index is their sum. */
  lemma {:induction false} IndexIsTotal(key: seq<Byte>, n: nat)
    requires |key| > 0 && n <= SWAPS
    ensures IndexAt(key, n) == Total(key, n) % 256
  {
    hide IndexAt, BoxAt, KeyAt;
    if n == 0 {
      ScheduleStarts(key, 0);
    } else {
      IndexIsTotal(key, n - 1);
      ScheduleLaw(key, n - 1);
      AddMod(Total(key, n - 1), BoxAt(key, n - 1)[n - 1] + KeyAt(key, n - 1));
    }
  }

  lemma Difference(a: Octet, b: Octet, k: Octet, c: int)
    requires c == (a + b + k) % 256
    ensures (c - a - b) % 256 == k
  {
  }

  /** The schedule shows the key: every byte of it can be found from two neighbouring indices. */
  lemma KeyRecovered(key: seq<Byte>, n: nat)
    requires |key| > 0 && n < SWAPS
    ensures KeyAt(key, n) == (IndexAt(key, n + 1) - IndexAt(key, n) - BoxAt(key, n)[n]) % 256
  {
    hide IndexAt, BoxAt, KeyAt;
    ScheduleLaw(key, n);
    Difference(IndexAt(key, n), BoxAt(key, n)[n], KeyAt(key, n), IndexAt(key, n + 1));
  }

  lemma SameByte(a: Byte, b: Byte)
    requires a as int == b as int
    ensures a == b
  {
  }

  /** Different keys of equal length have different schedules. */
  lemma KeysDiffer(a: seq<Byte>, b: seq<Byte>)
    requires 0 < |a| == |b| <= SWAPS
    requires forall n :: 0 <= n <= SWAPS ==> KeySchedule(a, n) == KeySchedule(b, n)
    ensures a == b
  {
    hide KeySchedule, KeyAt;
    forall n | 0 <= n < |a|
      ensures a[n] == b[n]
    {
      assert KeySchedule(a, n) == KeySchedule(b, n) && KeySchedule(a, n + 1) == KeySchedule(b, n + 1);
      KeyRecovered(a, n);
      KeyRecovered(b, n);
      SameKeyByte(a, b, n);
    }
  }

  lemma SameKeyByte(a: seq<Byte>, b: seq<Byte>, n: nat)
    requires n < |a| == |b| && KeyAt(a, n) == KeyAt(b, n)
    ensures a[n] == b[n]
  {
    Modulo(n, 0, |a|, n);
    SameByte(a[n], b[n]);
  }

  // ----- The key stream -----

  function StreamBox(key: seq<Byte>, k: nat): Box
    requires |key| > 0
  {
    StreamState(key, k).s
  }

  function StreamIndex(key: seq<Byte>, k: nat): Octet
    requires |key| > 0
  {
    StreamState(key, k).j
  }

  lemma StreamStarts(key: seq<Byte>)
    requires |key| > 0
    ensures StreamBox(key, 0) == BoxAt(key, SWAPS) && StreamIndex(key, 0) == 0
  {
    hide KeySchedule;
  }

  lemma StreamNext(key: seq<Byte>, k: nat)
    requires |key| > 0
    ensures StreamState(key, k + 1) == StreamStep(StreamState(key, k))
    ensures KeyStream(key, k) == Output(StreamStep(StreamState(key, k)))
  {
    hide KeySchedule, StreamStep, Output;
  }

  /** One step of a generator, and the byte it gives. */
  lemma StepLaw(g: Generator)
    ensures var h := StreamStep(g);
            var x: int, y: int := g.s[h.i], g.s[h.j];
            && h.i == (g.i + 1) % 256 && h.j == (g.j + x) % 256
            && Exchanged(g.s, h.s, h.i, h.j)
            && Output(h) == h.s[(x + y) % 256] as Byte
  {
    var h := StreamStep(g);
    assert h.s[h.i] == g.s[h.j] && h.s[h.j] == g.s[h.i];
  }

  lemma {:induction false} PlaceAt(key: seq<Byte>, k: nat)
    requires |key| > 0
    ensures StreamState(key, k).i == k % 256
  {
    hide StreamState;
    if k == 0 {
      FirstPlace(key);
    } else {
      PlaceAt(key, k - 1);
      NextPlace(key, k - 1);
      AddMod(k - 1, 1);
    }
  }

  lemma FirstPlace(key: seq<Byte>)
    requires |key| > 0
    ensures StreamState(key, 0).i == 0
  {
    hide KeySchedule;
  }

  lemma NextPlace(key: seq<Byte>, k: nat)
    requires |key| > 0
    ensures StreamState(key, k + 1).i == (StreamState(key, k).i + 1) % 256
  {
    hide KeySchedule, Swap;
  }

  /** Byte k: the place moves on by one, the index by the entry there, the two entries are exchanged,
      and their sum is the place of the byte. */
  lemma StreamLaw(key: seq<Byte>, k: nat)
    requires |key| > 0
    ensures var i, s, t := (k + 1) % 256, StreamBox(key, k), StreamBox(key, k + 1);
            var j := StreamIndex(key, k + 1);
            var x: int, y: int := s[i], s[j];
            && j == (StreamIndex(key, k) + x) % 256
            && Exchanged(s, t, i, j)
            && KeyStream(key, k) == t[(x + y) % 256] as Byte
  {
    hide StreamState, StreamStep, Exchanged, Output, KeyStream;
    PlaceAt(key, k + 1);
    StreamNext(key, k);
    StepLaw(StreamState(key, k));
  }

  /** Encryption adds the key stream to the data, byte by byte. */
  lemma CryptByte(key: seq<Byte>, data: seq<Byte>, k: nat)
    requires |key| > 0 && k < |data|
    ensures Crypt(key, data)[k] == data[k] ^ KeyStream(key, k)
  {
    hide KeyStream;
  }

  /** The 16 bytes of the filled key. */
  lemma FillByte(key: seq<Byte>, i: nat)
    requires |key| > 0 && i < 16
    ensures Fill(key)[i] == key[i % |key|]
  {
  }

  // ----- A key that leaves the box as it is -----

  /** The key bytes that make the index run along with the swaps, so that each entry is exchanged
      with itself. */
  predicate Still(key: seq<Byte>) {
    |key| == 256 && forall n :: 0 <= n < 256 ==> KeyAt(key, n) == if n == 0 then 0 else (257 - n) % 256
  }

  lemma {:induction false} StillSchedule(key: seq<Byte>, n: nat)
    requires Still(key) && n <= SWAPS
    ensures IndexAt(key, n) == if n == 0 then 0 else n - 1
    ensures forall p :: 0 <= p < 256 ==> BoxAt(key, n)[p] == p
  {
    hide IndexAt, BoxAt, KeyAt;
    if n == 0 {
      forall p | 0 <= p < 256
        ensures BoxAt(key, 0)[p] == p && IndexAt(key, 0) == 0
      {
        ScheduleStarts(key, p);
      }
      assert BoxAt(key, 0)[0] == 0;
    } else {
      StillSchedule(key, n - 1);
      ScheduleLaw(key, n - 1);
    }
  }

  /** One byte of a key stream, when the entries it meets are known. */
  lemma StreamByte(key: seq<Byte>, k: nat, i: Octet, j: Octet, x: Octet, y: Octet, z: Octet)
    requires |key| > 0 && i == (k + 1) % 256 && StreamBox(key, k)[i] == x && StreamBox(key, k)[j] == y
    requires j == (StreamIndex(key, k) + x) % 256
    requires var p := (x + y) % 256; p != i && p != j && StreamBox(key, k)[p] == z
    ensures StreamIndex(key, k + 1) == j && Exchanged(StreamBox(key, k), StreamBox(key, k + 1), i, j)
    ensures KeyStream(key, k) == z as Byte
  {
    hide StreamBox, StreamIndex, KeyStream;
    StreamLaw(key, k);
  }

  lemma StillByte0(key: seq<Byte>)
    requires Still(key)
    ensures KeyStream(key, 0) == 2 && StreamIndex(key, 1) == 1
    ensures forall p :: 0 <= p < 256 ==> StreamBox(key, 1)[p] == p
  {
    StillSchedule(key, SWAPS);
    hide StreamBox, StreamIndex, KeyStream, BoxAt, KeyAt;
    StreamStarts(key);
    StreamByte(key, 0, 1, 1, 1, 1, 2);
  }

  lemma StillByte1(key: seq<Byte>)
    requires Still(key)
    ensures KeyStream(key, 1) == 5 && StreamIndex(key, 2) == 3
    ensures StreamBox(key, 2)[2] == 3 && StreamBox(key, 2)[3] == 2
    ensures forall p :: 4 <= p < 256 ==> StreamBox(key, 2)[p] == p
  {
    hide StreamBox, StreamIndex, KeyStream, KeyAt;
    StillByte0(key);
    StreamByte(key, 1, 2, 3, 2, 3, 5);
  }

  lemma StillByte2(key: seq<Byte>)
    requires Still(key)
    ensures KeyStream(key, 2) == 7 && StreamIndex(key, 3) == 5
    ensures StreamBox(key, 3)[4] == 4 && forall p :: 6 <= p < 256 ==> StreamBox(key, 3)[p] == p
  {
    hide StreamBox, StreamIndex, KeyStream, KeyAt;
    StillByte1(key);
    StreamByte(key, 2, 3, 5, 2, 5, 7);
  }

  /** Its key stream starts with 2, 5, 7, 13. */
  lemma StillStream(key: seq<Byte>)
    requires Still(key)
    ensures KeyStream(key, 0) == 2 && KeyStream(key, 1) == 5 && KeyStream(key, 2) == 7 && KeyStream(key, 3) == 13
  {
    hide StreamBox, StreamIndex, KeyStream, KeyAt;
    StillByte0(key);
    StillByte1(key);
    StillByte2(key);
    StreamByte(key, 3, 4, 9, 4, 9, 13);
  }
}
