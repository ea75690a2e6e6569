/** The Base64 encoder (inadyn/base64utils.c:47-186), as in section 4 of RFC 4648. */
module Base64 {

  type Byte = x: int | 0 <= x < 256

  // ----- The tables -----

  // Each table is kept as its rows of eight.

  const INDEX: seq<seq<int>> :=
    [ [0x41, 0x42, 0x43, 0x44, 0x45, 0x46, 0x47, 0x48],
      [0x49, 0x4a, 0x4b, 0x4c, 0x4d, 0x4e, 0x4f, 0x50],
      [0x51, 0x52, 0x53, 0x54, 0x55, 0x56, 0x57, 0x58],
      [0x59, 0x5a, 0x61, 0x62, 0x63, 0x64, 0x65, 0x66],
      [0x67, 0x68, 0x69, 0x6a, 0x6b, 0x6c, 0x6d, 0x6e],
      [0x6f, 0x70, 0x71, 0x72, 0x73, 0x74, 0x75, 0x76],
      [0x77, 0x78, 0x79, 0x7a, 0x30, 0x31, 0x32, 0x33],
      [0x34, 0x35, 0x36, 0x37, 0x38, 0x39, 0x2b, 0x2f] ]

  const BASE64: seq<seq<int>> :=
    [ [0x3e, 0x7f, 0x7f, 0x7f, 0x3f, 0x34, 0x35, 0x36],
      [0x37, 0x38, 0x39, 0x3a, 0x3b, 0x3c, 0x3d, 0x7f],
      [0x7f, 0x7f, 0x7f, 0x7f, 0x7f, 0x7f, 0x00, 0x01],
      [0x02, 0x03, 0x04, 0x05, 0x06, 0x07, 0x08, 0x09],
      [0x0a, 0x0b, 0x0c, 0x0d, 0x0e, 0x0f, 0x10, 0x11],
      [0x12, 0x13, 0x14, 0x15, 0x16, 0x17, 0x18, 0x19],
      [0x7f, 0x7f, 0x7f, 0x7f, 0x7f, 0x7f, 0x1a, 0x1b],
      [0x1c, 0x1d, 0x1e, 0x1f, 0x20, 0x21, 0x22, 0x23],
      [0x24, 0x25, 0x26, 0x27, 0x28, 0x29, 0x2a, 0x2b],
      [0x2c, 0x2d, 0x2e, 0x2f, 0x30, 0x31, 0x32, 0x33] ]

  function IndexAt(v: nat): int
    requires v < 64
  {
    INDEX[v / 8][v % 8]
  }

  function Base64At(i: nat): int
    requires i < 80
  {
    BASE64[i / 8][i % 8]
  }

  /** The alphabet: upper case, lower case, digits, plus and slash. */
  function Letter(v: nat): (c: int)
    requires v < 64
  {
    if v < 26 then 'A' as int + v
    else if v < 52 then 'a' as int + (v - 26)
    else if v < 62 then '0' as int + (v - 52)
    else if v == 62 then '+' as int else '/' as int
  }

  function Value(c: int): (v: int) {
    if 'A' as int <= c <= 'Z' as int then c - 'A' as int
    else if 'a' as int <= c <= 'z' as int then c - 'a' as int + 26
    else if '0' as int <= c <= '9' as int then c - '0' as int + 52
    else if c == '+' as int then 62
    else if c == '/' as int then 63
    else 0x7f
  }

  lemma IndexIs(v: nat)
    requires v < 64
    ensures IndexAt(v) == Letter(v)
  {
  }

  lemma Base64Is(c: nat)
    requires 0x2b <= c <= 0x7a
    ensures Base64At(c - 0x2b) == Value(c)
  {
  }

  lemma LettersAreValues()
    ensures forall v :: 0 <= v < 64 ==> Value(Letter(v)) == v
    ensures forall c :: Value(c) < 64 ==> 0 <= Value(c) && Letter(Value(c)) == c
  {
  }

  /** b64valid: a character is replaced by its value, if it is one of the alphabet. In a gap of the
      table it is replaced all the same. */
  method B64Valid(c: Byte) returns (ok: bool, v: Byte)
    ensures ok <==> exists w :: 0 <= w < 64 && Letter(w) == c
    ensures ok ==> v < 64 && Letter(v) == c
    ensures !ok ==> v == if 0x2b <= c <= 0x7a then 0x7f else c
  {
    hide Letter, Base64At;
    LettersAreValues();
    if c < 0x2b || c > 0x7a {
      assert Value(c) == 0x7f;
      return false, c;
    }
    Base64Is(c);
    v := Base64At(c - 0x2b);
    return v != 0x7f, v;
  }

  // ----- Encoding -----

  const PADDING: Byte := 0x3d

  function ByteOrZero(s: seq<Byte>, i: nat): Byte {
    if i < |s| then s[i] else 0
  }

  /** Three bytes form a group of 24 bits. Missing ones at the end count as zero. */
  function Group(s: seq<Byte>, k: nat): (g: nat)
    ensures g < 0x1000000
  {
    ByteOrZero(s, 3 * k) * 0x10000 + ByteOrZero(s, 3 * k + 1) * 0x100 + ByteOrZero(s, 3 * k + 2)
  }

  /** The four sextets of a group, from the left. */
  function Sextet(g: nat, t: nat): (v: nat)
    requires g < 0x1000000 && t < 4
    ensures v < 64
  {
    match t
    case 0 => g / 0x40000 % 64
    case 1 => g / 0x1000 % 64
    case 2 => g / 0x40 % 64
    case _ => g % 64
  }

  /** The character at a position: the sextet's letter, or padding where a sextet holds no bit of
      the input. */
  function Character(s: seq<Byte>, j: nat): (c: Byte) {
    if 3 * (j / 4) + j % 4 <= |s| then Letter(Sextet(Group(s, j / 4), j % 4)) else PADDING
  }

  function Encoded(s: seq<Byte>): (t: seq<Byte>)
    ensures |t| == (|s| + 2) / 3 * 4
  {
    seq((|s| + 2) / 3 * 4, j requires 0 <= j => Character(s, j))
  }

  lemma FourSextets(p: nat, q: nat, r: nat, u: nat)
    requires p < 64 && q < 64 && r < 64 && u < 64
    ensures var g := p * 0x40000 + q * 0x1000 + r * 0x40 + u;
            Sextet(g, 0) == p && Sextet(g, 1) == q && Sextet(g, 2) == r && Sextet(g, 3) == u
  {
    var g := p * 0x40000 + q * 0x1000 + r * 0x40 + u;
    assert g / 0x40000 == p;
    assert g / 0x1000 == p * 64 + q;
    assert g / 0x40 == (p * 64 + q) * 64 + r;
  }

  /** The bit operations of the encoder pick out the sextets. */
  lemma Sextets(a: Byte, b: Byte, c: Byte)
    ensures var g := a * 0x10000 + b * 0x100 + c;
            && Sextet(g, 0) == a / 4
            && Sextet(g, 1) == a % 4 * 16 + b / 16
            && Sextet(g, 2) == b % 16 * 4 + c / 64
            && Sextet(g, 3) == c % 64
  {
    hide Sextet;
    FourSextets(a / 4, a % 4 * 16 + b / 16, b % 16 * 4 + c / 64, c % 64);
  }

  lemma GroupCharacters(s: seq<Byte>, k: nat)
    requires 3 * k < |s|
    ensures var a, b, c := s[3 * k], ByteOrZero(s, 3 * k + 1), ByteOrZero(s, 3 * k + 2);
            && Character(s, 4 * k) == Letter(a / 4)
            && Character(s, 4 * k + 1) == Letter(a % 4 * 16 + b / 16)
            && Character(s, 4 * k + 2) == (if 3 * k + 1 < |s| then Letter(b % 16 * 4 + c / 64) else PADDING)
            && Character(s, 4 * k + 3) == (if 3 * k + 2 < |s| then Letter(c % 64) else PADDING)
  {
    hide Letter, Sextet;
    Sextets(s[3 * k], ByteOrZero(s, 3 * k + 1), ByteOrZero(s, 3 * k + 2));
  }

  /** b64encode */
  method B64Encode(s: seq<Byte>, memory: bool) returns (b: array?<Byte>)
    ensures b != null <==> s != [] && memory && forall i :: 0 <= i < |s| ==> s[i] <= 0x7f
    ensures b != null ==> b[..] == Encoded(s) + [0]
  {
    hide Character;
    var l, x := |s|, 0;
    while x < l
      invariant 0 <= x <= l && forall i :: 0 <= i < x ==> s[i] <= 0x7f
    {
      if s[x] > 0x7f {
        return null;
      }
      x := x + 1;
    }
    if l == 0 || !memory {
      return null;
    }
    var size := (l + 2) / 3 * 4;
    b := new Byte[size + 1](i => if i < size then PADDING else 0);
    EncodeInto(s, b, size);
    Assembled(s, b[..]);
  }

  /** The loop over groups of three bytes, and what is left after it. */
  method EncodeInto(s: seq<Byte>, b: array<Byte>, size: nat)
    requires size == (|s| + 2) / 3 * 4 && b.Length == size + 1
    requires b[size] == 0 && forall j :: 0 <= j < size ==> b[j] == PADDING
    modifies b
    ensures b[size] == 0 && forall j :: 0 <= j < size ==> b[j] == Character(s, j)
  {
    hide Character;
    var l, x, p := |s|, 0, 0;
    ghost var k, q := 0, l / 3;
    GroupsOf(l);
    while x < l - l % 3
      invariant x == 3 * k && p == 4 * k && 0 <= k <= q
      invariant forall j :: 0 <= j < p ==> b[j] == Character(s, j)
      invariant forall j :: p <= j < size ==> b[j] == PADDING
      invariant b[size] == 0
      decreases l - x
    {
      WriteGroup(s, x, b, p, k);
      p := p + 4;
      x := x + 3;
      k := k + 1;
    }
    if l - x != 0 {
      WriteRest(s, x, b, p, k);
    }
  }

  lemma Assembled(s: seq<Byte>, b: seq<Byte>)
    requires |b| == (|s| + 2) / 3 * 4 + 1 && b[|b| - 1] == 0
    requires forall j :: 0 <= j < |b| - 1 ==> b[j] == Character(s, j)
    ensures b == Encoded(s) + [0]
  {
    hide Character;
  }

  method WriteGroup(s: seq<Byte>, x: nat, b: array<Byte>, p: nat, ghost k: nat)
    requires x == 3 * k && x + 3 <= |s| && p == 4 * k && p + 4 <= b.Length
    modifies b
    ensures forall j :: p <= j < p + 4 ==> b[j] == Character(s, j)
    ensures forall j :: 0 <= j < b.Length && !(p <= j < p + 4) ==> b[j] == old(b[j])
  {
    hide Letter, IndexAt, Character;
    IndexIs(s[x] / 4);
    IndexIs(s[x] % 4 * 16 + s[x + 1] / 16);
    IndexIs(s[x + 1] % 16 * 4 + s[x + 2] / 64);
    IndexIs(s[x + 2] % 64);
    GroupCharacters(s, k);
    b[p] := IndexAt(s[x] / 4);
    b[p + 1] := IndexAt(s[x] % 4 * 16 + s[x + 1] / 16);
    b[p + 2] := IndexAt(s[x + 1] % 16 * 4 + s[x + 2] / 64);
    b[p + 3] := IndexAt(s[x + 2] % 64);
  }

  /** One or two bytes are left; the buffer is filled with padding already. */
  method WriteRest(s: seq<Byte>, x: nat, b: array<Byte>, p: nat, ghost k: nat)
    requires x == 3 * k && x < |s| < x + 3 && p == 4 * k && p + 4 <= b.Length
    requires forall j :: p <= j < p + 4 ==> b[j] == PADDING
    modifies b
    ensures forall j :: p <= j < p + 4 ==> b[j] == Character(s, j)
    ensures forall j :: 0 <= j < b.Length && !(p <= j < p + 4) ==> b[j] == old(b[j])
  {
    hide Letter, IndexAt, Character;
    GroupCharacters(s, k);
    IndexIs(s[x] / 4);
    b[p] := IndexAt(s[x] / 4);
    if |s| - x == 1 {
      IndexIs(s[x] % 4 * 16);
      b[p + 1] := IndexAt(s[x] % 4 * 16);
    } else {
      IndexIs(s[x] % 4 * 16 + s[x + 1] / 16);
      IndexIs(s[x + 1] % 16 * 4);
      b[p + 1] := IndexAt(s[x] % 4 * 16 + s[x + 1] / 16);
      b[p + 2] := IndexAt(s[x + 1] % 16 * 4);
    }
  }

  // ----- Decoding -----

  /** The bytes in four characters: padding takes off the last one or two. */
  function DecodedGroup(t: seq<Byte>): seq<Byte>
    requires |t| == 4 && Value(t[0]) < 64 && Value(t[1]) < 64
  {
    var a := Value(t[0]) * 4 + Value(t[1]) / 16;
    if Value(t[2]) >= 64 then [a]
    else
      var b := Value(t[1]) % 16 * 16 + Value(t[2]) / 4;
      if Value(t[3]) >= 64 then [a, b] else [a, b, Value(t[2]) % 4 * 64 + Value(t[3])]
  }

  predicate WellFormed(t: seq<Byte>) {
    && |t| % 4 == 0
    && forall j :: 0 <= j < |t| && j % 4 < 2 ==> Value(t[j]) < 64
  }

  function Decoded(t: seq<Byte>): seq<Byte>
    requires WellFormed(t)
  {
    if t == [] then [] else DecodedGroup(t[..4]) + Decoded(t[4..])
  }

  lemma PaddingIsNoLetter()
    ensures Value(PADDING) == 0x7f
    ensures forall v :: 0 <= v < 64 ==> Letter(v) != PADDING
  {
  }

  lemma LastSextet(n: nat, q: nat, r: nat, a: nat, b: nat)
    requires n == 3 * q + r && r < 3 && b < 4 && 4 * a + b < 4 * q + (if r == 0 then 0 else 4)
    ensures 3 * a + b > n <==> 4 * a + b >= 4 * q + (if r == 0 then 0 else 1 + r)
  {
    if a < q {
      assert 3 * a + b <= n;
    }
  }

  /** Padding stands at the end only, and completes the last group of three bytes. */
  lemma PaddingCompletes(s: seq<Byte>, j: nat)
    requires j < |Encoded(s)|
    ensures Encoded(s)[j] == PADDING <==> j >= |Encoded(s)| - (if |s| % 3 == 0 then 0 else 3 - |s| % 3)
  {
    hide Letter, Group, Sextet;
    PaddingIsNoLetter();
    GroupsOf(|s|);
    LastSextet(|s|, |s| / 3, |s| % 3, j / 4, j % 4);
  }

  lemma GroupsOf(n: nat)
    ensures (n + 2) / 3 == n / 3 + if n % 3 == 0 then 0 else 1
  {
  }

  lemma EncodedHead(s: seq<Byte>)
    requires s != []
    ensures var t := Encoded(s)[..4];
            Value(t[0]) < 64 && Value(t[1]) < 64 && DecodedGroup(t) == s[..if |s| < 3 then |s| else 3]
  {
    hide Letter, Value, Character, ByteOrZero;
    var a, b, c := s[0], ByteOrZero(s, 1), ByteOrZero(s, 2);
    LettersAreValues();
    PaddingIsNoLetter();
    GroupCharacters(s, 0);
    SextetsJoin(a, b, c);
    HeadBytes(s);
    var t := Encoded(s)[..4];
    assert t[0] == Character(s, 0) && t[1] == Character(s, 1) && t[2] == Character(s, 2) && t[3] == Character(s, 3);
  }

  lemma HeadBytes(s: seq<Byte>)
    requires s != []
    ensures s[..if |s| < 3 then |s| else 3] ==
              if |s| == 1 then [s[0]] else if |s| == 2 then [s[0], ByteOrZero(s, 1)]
              else [s[0], ByteOrZero(s, 1), ByteOrZero(s, 2)]
    ensures |s| == 1 ==> ByteOrZero(s, 1) == 0
    ensures |s| <= 2 ==> ByteOrZero(s, 2) == 0
  {
  }

  lemma SextetsJoin(a: Byte, b: Byte, c: Byte)
    ensures a / 4 * 4 + (a % 4 * 16 + b / 16) / 16 == a
    ensures (a % 4 * 16 + b / 16) % 16 * 16 + (b % 16 * 4 + c / 64) / 4 == b
    ensures (b % 16 * 4 + c / 64) % 4 * 64 + c % 64 == c
    ensures a / 4 < 64 && a % 4 * 16 + b / 16 < 64 && b % 16 * 4 + c / 64 < 64
  {
  }

  lemma NextGroup(s: seq<Byte>, j: nat)
    requires |s| >= 3
    ensures Character(s, 4 + j) == Character(s[3..], j)
  {
    hide Letter, Sextet;
    assert Group(s, j / 4 + 1) == Group(s[3..], j / 4);
    assert (4 + j) / 4 == j / 4 + 1 && (4 + j) % 4 == j % 4;
  }

  lemma EncodedTail(s: seq<Byte>)
    requires s != []
    ensures Encoded(s)[4..] == Encoded(if |s| < 3 then [] else s[3..])
  {
    hide Character;
    if |s| >= 3 {
      var rest := s[3..];
      forall j | 0 <= j < |Encoded(rest)| ensures Encoded(s)[4 + j] == Encoded(rest)[j] {
        NextGroup(s, j);
      }
    }
  }

  lemma WellFormedCons(t: seq<Byte>)
    requires |t| >= 4 && Value(t[0]) < 64 && Value(t[1]) < 64 && WellFormed(t[4..])
    ensures WellFormed(t)
  {
    hide Value;
    forall j | 0 <= j < |t| && j % 4 < 2 ensures Value(t[j]) < 64 {
      if j >= 4 {
        assert t[j] == t[4..][j - 4];
      }
    }
  }

  /** Decoding with the values of the table gives back what was encoded. */
  lemma {:induction false} DecodeEncode(s: seq<Byte>)
    ensures WellFormed(Encoded(s)) && Decoded(Encoded(s)) == s
    decreases |s|
  {
    if s == [] {
      return;
    }
    hide DecodedGroup, Encoded, WellFormed, Value, Decoded;
    var t, rest := Encoded(s), if |s| < 3 then [] else s[3..];
    EncodedHead(s);
    EncodedTail(s);
    DecodeEncode(rest);
    WellFormedCons(t);
    DecodedCons(t);
    assert s == s[..if |s| < 3 then |s| else 3] + rest;
  }

  lemma DecodedCons(t: seq<Byte>)
    requires |t| >= 4 && WellFormed(t) && Value(t[0]) < 64 && Value(t[1]) < 64 && WellFormed(t[4..])
    ensures Decoded(t) == DecodedGroup(t[..4]) + Decoded(t[4..])
  {
    hide DecodedGroup, WellFormed, Value;
  }
}
