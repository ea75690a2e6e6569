/** The rotating cursor over GSM triplets (athr-hostap/hostapd/hlr_auc_gw.c:57-66, 227-249, 392-455). */
module GsmTriplets {

  import opened Wrappers
  import opened Arithmetic

  type Byte = x: int | 0 <= x < 256

  datatype TripletData = TripletData(imsi: string, kc: seq<Byte>, sres: seq<Byte>, rand: seq<Byte>)

  type Triplet = t: TripletData | |t.kc| == 8 && |t.sres| == 4 && |t.rand| == 16
    witness TripletData("", seq(8, _ => 0), seq(4, _ => 0), seq(16, _ => 0))

  /** EAP_SIM_MAX_CHAL */
  const MAX_CHAL: int := 3

  // ----- The triplets of one subscriber -----

  /** The places, in list order from lo up to hi, of the triplets of a subscriber. */
  function Owned(db: seq<Triplet>, imsi: string, lo: nat, hi: nat): (places: seq<nat>)
    requires lo <= hi <= |db|
    decreases hi - lo
  {
    if lo == hi then []
    else (if db[lo].imsi == imsi then [lo] else []) + Owned(db, imsi, lo + 1, hi)
  }

  /** The same from a cursor on to the end of the list, then from its start up to the cursor. The
      cursor |db| stands for the null pointer. */
  function Cycle(db: seq<Triplet>, imsi: string, pos: nat): (places: seq<nat>)
    requires pos <= |db|
  {
    Owned(db, imsi, pos, |db|) + Owned(db, imsi, 0, pos)
  }

  predicate Ascending(s: seq<nat>) {
    forall i, j :: 0 <= i < j < |s| ==> s[i] < s[j]
  }

  lemma {:induction false} OwnedIs(db: seq<Triplet>, imsi: string, lo: nat, hi: nat)
    requires lo <= hi <= |db|
    ensures forall i :: i in Owned(db, imsi, lo, hi) <==> lo <= i < hi && db[i].imsi == imsi
    ensures Ascending(Owned(db, imsi, lo, hi))
    decreases hi - lo
  {
    if lo < hi {
      OwnedIs(db, imsi, lo + 1, hi);
      var rest := Owned(db, imsi, lo + 1, hi);
      if db[lo].imsi == imsi {
        InFront(lo, rest);
      } else {
        assert Owned(db, imsi, lo, hi) == rest;
      }
    }
  }

  lemma InFront(i: nat, rest: seq<nat>)
    requires Ascending(rest) && forall k :: k in rest ==> i < k
    ensures Ascending([i] + rest) && forall k :: k in [i] + rest <==> k == i || k in rest
  {
    assert forall k :: 0 <= k < |rest| ==> rest[k] in rest;
  }

  lemma {:induction false} OwnedSplit(db: seq<Triplet>, imsi: string, lo: nat, mid: nat, hi: nat)
    requires lo <= mid <= hi <= |db|
    ensures Owned(db, imsi, lo, hi) == Owned(db, imsi, lo, mid) + Owned(db, imsi, mid, hi)
    decreases mid - lo
  {
    if lo < mid {
      OwnedSplit(db, imsi, lo + 1, mid, hi);
    }
  }

  /** The first triplet at or behind lo. */
  lemma OwnedFirst(db: seq<Triplet>, imsi: string, lo: nat, i: nat, hi: nat)
    requires lo <= i < hi <= |db| && db[i].imsi == imsi && Owned(db, imsi, lo, i) == []
    ensures Owned(db, imsi, lo, i + 1) == [i]
    ensures Owned(db, imsi, lo, hi) == [i] + Owned(db, imsi, i + 1, hi)
  {
    OwnedSplit(db, imsi, lo, i, i + 1);
    OwnedSplit(db, imsi, lo, i + 1, hi);
    assert Owned(db, imsi, i + 1, i + 1) == [];
  }

  function Rotated(s: seq<nat>): seq<nat> {
    if s == [] then [] else s[1..] + [s[0]]
  }

  /** Moving the cursor behind the first triplet of the cycle rotates the cycle by one. */
  lemma FoundBehind(db: seq<Triplet>, imsi: string, pos: nat, i: nat)
    requires pos <= i < |db| && db[i].imsi == imsi && Owned(db, imsi, pos, i) == []
    ensures var c := Cycle(db, imsi, pos); c != [] && c[0] == i && Cycle(db, imsi, i + 1) == Rotated(c)
  {
    hide Owned;
    OwnedFirst(db, imsi, pos, i, |db|);
    OwnedSplit(db, imsi, 0, pos, i + 1);
  }

  lemma FoundBefore(db: seq<Triplet>, imsi: string, pos: nat, i: nat)
    requires i < pos <= |db| && db[i].imsi == imsi
    requires Owned(db, imsi, pos, |db|) == [] && Owned(db, imsi, 0, i) == []
    ensures var c := Cycle(db, imsi, pos); c != [] && c[0] == i && Cycle(db, imsi, i + 1) == Rotated(c)
  {
    hide Owned;
    OwnedFirst(db, imsi, 0, i, pos);
    OwnedSplit(db, imsi, i + 1, pos, |db|);
  }

  lemma NoneYet(db: seq<Triplet>, imsi: string)
    ensures forall i :: 0 <= i <= |db| ==> Owned(db, imsi, i, i) == []
  {
  }

  lemma NoneStill(db: seq<Triplet>, imsi: string, lo: nat, i: nat)
    requires lo <= i < |db| && db[i].imsi != imsi && Owned(db, imsi, lo, i) == []
    ensures Owned(db, imsi, lo, i + 1) == []
  {
    OwnedSplit(db, imsi, lo, i, i + 1);
  }

  lemma NoneAtAll(db: seq<Triplet>, imsi: string, pos: nat)
    requires pos <= |db| && Owned(db, imsi, pos, |db|) == [] && Owned(db, imsi, 0, pos) == []
    ensures Cycle(db, imsi, pos) == [] == Rotated(Cycle(db, imsi, pos))
  {
  }

  // ----- Consecutive requests -----

  function RotatedBy(s: seq<nat>, n: nat): (r: seq<nat>)
    ensures |r| == |s|
    decreases n
  {
    if n == 0 then s else Rotated(RotatedBy(s, n - 1))
  }

  lemma {:induction false} RotatedIs(s: seq<nat>, n: nat, j: nat)
    requires j < |s|
    ensures RotatedBy(s, n)[j] == s[(n + j) % |s|]
    decreases n
  {
    if n > 0 {
      if j + 1 < |s| {
        RotatedIs(s, n - 1, j + 1);
      } else {
        RotatedIs(s, n - 1, 0);
        OnceAround(n - 1, |s|);
      }
    } else {
      Modulo(j, 0, |s|, j);
    }
  }

  lemma OnceAround(n: nat, m: nat)
    requires m > 0
    ensures (n + m) % m == n % m
  {
    assert n == n / m * m + n % m;
    Modulo(n + m, n / m + 1, m, n % m);
  }

  class Gateway {
    const db: seq<Triplet>
    var pos: nat

    ghost predicate Valid() reads this { pos <= |db| }

    ghost function Ahead(imsi: string): seq<nat>
      requires Valid()
      reads this
    {
      Cycle(db, imsi, pos)
    }

    /** The cursor is null until the first triplet is found. */
    constructor (db: seq<Triplet>)
      ensures Valid() && this.db == db && pos == |db|
    {
      this.db := db;
      pos := |db|;
    }

    /** get_gsm_triplet */
    method GetGsmTriplet(imsi: string) returns (found: Option<nat>)
      requires Valid()
      modifies this
      ensures Valid()
      ensures found == if old(Ahead(imsi)) == [] then None else Some(old(Ahead(imsi))[0])
      ensures pos == if found == None then old(pos) else found.value + 1
      ensures found == Hit(db, old(pos), imsi) && pos == Moved(db, old(pos), imsi)
      ensures Ahead(imsi) == Rotated(old(Ahead(imsi)))
    {
      hide Owned, Cycle, Rotated;
      NoneYet(db, imsi);
      var g := pos;
      while g < |db|
        invariant pos == old(pos) && pos <= g <= |db| && Owned(db, imsi, pos, g) == []
      {
        if db[g].imsi == imsi {
          FoundBehind(db, imsi, pos, g);
          pos := g + 1;
          return Some(g);
        }
        NoneStill(db, imsi, pos, g);
        g := g + 1;
      }
      g := 0;
      while g < |db| && g != pos
        invariant pos == old(pos) && g <= pos && Owned(db, imsi, 0, g) == []
        decreases |db| - g
      {
        if db[g].imsi == imsi {
          FoundBefore(db, imsi, pos, g);
          pos := g + 1;
          return Some(g);
        }
        NoneStill(db, imsi, 0, g);
        g := g + 1;
      }
      NoneAtAll(db, imsi, pos);
      return None;
    }

    /** The triplet branch of sim_req_auth: the places of the triplets taken, and the reply if one
        is sent. */
    method SimReqAuth(imsi: string, wanted: Option<int>) returns (sent: seq<nat>, reply: Option<string>)
      requires Valid()
      modifies this
      ensures Valid()
      ensures |Header(imsi)| >= REPLY_SIZE ==> sent == [] && reply == None && pos == old(pos)
      ensures |Header(imsi)| < REPLY_SIZE ==>
                var k := |Owned(db, imsi, 0, |db|)|;
                && sent == Replies(old(Ahead(imsi)), Challenges(wanted))
                && Ahead(imsi) == RotatedBy(old(Ahead(imsi)), |sent|)
                && (Distinct(sent) <==> k == 0 || k >= Challenges(wanted))
                && ArePlaces(db, sent) && reply == Reply(db, Header(imsi), sent)
    {
      hide Cycle, Rotated, Owned, Listed, Header, Replies, RotatedBy, Distinct;
      var maxChal := MAX_CHAL;
      if wanted.Some? && wanted.value >= 1 && wanted.value >= MAX_CHAL {
        maxChal := wanted.value;
      }
      var text := Header(imsi);
      if |text| >= REPLY_SIZE {
        return [], None;
      }
      CycleIsComplete(db, imsi, pos);
      ChallengesDiffer(Ahead(imsi), maxChal);
      sent, text := ListTriplets(imsi, maxChal, text);
      if |sent| == 0 {
        ListedNone(db, Header(imsi));
        if |text| + |FAILURE| >= REPLY_SIZE {
          reply := None;
        } else {
          reply := Some(text + FAILURE);
        }
      } else {
        reply := Some(text);
      }
    }

    /** The loop of sim_req_auth over triplets. */
    method ListTriplets(imsi: string, maxChal: nat, header: string) returns (sent: seq<nat>, text: string)
      requires Valid()
      modifies this
      ensures Valid() && sent == Replies(old(Ahead(imsi)), maxChal)
      ensures Ahead(imsi) == RotatedBy(old(Ahead(imsi)), |sent|)
      ensures ArePlaces(db, sent) && text == Listed(db, header, sent)
    {
      hide Cycle, Rotated, Owned, WithTriplet, Listed;
      var count := 0;
      sent, text := [], header;
      ghost var start := Ahead(imsi);
      ListedNone(db, header);
      while count < maxChal
        invariant Valid() && 0 <= count <= maxChal && count == |sent|
        invariant count > 0 ==> start != []
        invariant Ahead(imsi) == RotatedBy(start, count)
        invariant sent == Replies(start, count)
        invariant ArePlaces(db, sent) && text == Listed(db, header, sent)
      {
        var g := GetGsmTriplet(imsi);
        if g == None {
          break;
        }
        NextReply(start, count);
        ListedStep(db, header, sent, g.value);
        text := PrintTriplet(text, db[g.value]);
        sent := sent + [g.value];
        count := count + 1;
      }
    }
  }

  // ----- The text of the reply -----

  /** sizeof(reply) */
  const REPLY_SIZE: nat := 1000

  const FAILURE: string := " FAILURE"

  function Header(imsi: string): string {
    "SIM-RESP-AUTH " + imsi
  }

  function Digit(d: int): char
    requires 0 <= d < 16
  {
    "0123456789abcdef"[d]
  }

  function HexText(data: seq<Byte>): (s: string)
    ensures |s| == 2 * |data|
  {
    if data == [] then "" else HexText(data[..|data| - 1]) + Hex(data[|data| - 1])
  }

  function Hex(b: Byte): (s: string)
    ensures |s| == 2
  {
    [Digit(b / 16), Digit(b % 16)]
  }

  function DigitValue(c: char): int {
    if '0' <= c <= '9' then c as int - '0' as int
    else if 'a' <= c <= 'f' then c as int - 'a' as int + 10
    else -1
  }

  /** Two lower case hexadecimal digits give a byte back. */
  lemma HexReads(b: Byte)
    ensures 16 * DigitValue(Hex(b)[0]) + DigitValue(Hex(b)[1]) == b
    ensures DigitValue(Hex(b)[0]) >= 0 && DigitValue(Hex(b)[1]) >= 0
  {
    DigitReads(b / 16);
    DigitReads(b % 16);
  }

  lemma DigitReads(d: int)
    requires 0 <= d < 16
    ensures DigitValue(Digit(d)) == d
  {
    match d
    case 0 => case 1 => case 2 => case 3 => case 4 => case 5 => case 6 => case 7 =>
    case 8 => case 9 => case 10 => case 11 => case 12 => case 13 => case 14 => case _ =>
  }

  /** How many of n bytes can be printed in full, with a terminating zero behind them. */
  function Fit(length: nat, n: nat): (k: nat)
    ensures k <= n
    ensures k == n <==> n == 0 || length + 2 * n < REPLY_SIZE
  {
    var room := if length < REPLY_SIZE then (REPLY_SIZE - length - 1) / 2 else 0;
    if n < room then n else room
  }

  function WithChar(text: string, c: char): (s: string)
    ensures |s| <= |text| + 1 && (|text| < REPLY_SIZE ==> s == text + [c]) && text <= s
  {
    if |text| < REPLY_SIZE then text + [c] else text
  }

  function WithHex(text: string, data: seq<Byte>): (s: string)
    ensures text <= s
    ensures if data == [] || |text| + 2 * |data| < REPLY_SIZE then s == text + HexText(data)
            else |s| < |text| + 2 * |data|
  {
    var k := Fit(|text|, |data|);
    assert k == |data| ==> data[..k] == data;
    text + HexText(data[..k])
  }

  /** wpa_snprintf_hex at the end of the text (athr-hostap/src/utils/common.c:193-212). */
  method SnprintfHex(text: string, data: seq<Byte>) returns (s: string)
    ensures s == WithHex(text, data)
  {
    s := text;
    if |text| >= REPLY_SIZE {
      assert data[..0] == [];
      return;
    }
    for i := 0 to |data|
      invariant s == text + HexText(data[..i]) && i <= Fit(|text|, |data|)
    {
      if 2 >= REPLY_SIZE - |s| {
        return;
      }
      assert data[..i + 1][..i] == data[..i];
      s := s + Hex(data[i]);
    }
  }

  function WithTriplet(text: string, t: Triplet): string {
    WithHex(WithChar(WithHex(WithChar(WithHex(WithChar(text, ' '), t.kc), ':'), t.sres), ':'), t.rand)
  }

  /** The part of the loop of sim_req_auth that prints a triplet. */
  method PrintTriplet(text: string, t: Triplet) returns (s: string)
    ensures s == WithTriplet(text, t)
  {
    s := text;
    if |s| < REPLY_SIZE { s := s + " "; }
    s := SnprintfHex(s, t.kc);
    if |s| < REPLY_SIZE { s := s + ":"; }
    s := SnprintfHex(s, t.sres);
    if |s| < REPLY_SIZE { s := s + ":"; }
    s := SnprintfHex(s, t.rand);
  }

  predicate ArePlaces(db: seq<Triplet>, places: seq<nat>) {
    forall j :: 0 <= j < |places| ==> places[j] < |db|
  }

  /** The reply with the triplets at some places printed into it. */
  function Listed(db: seq<Triplet>, header: string, places: seq<nat>): string
    requires ArePlaces(db, places)
  {
    if places == [] then header
    else WithTriplet(Listed(db, header, places[..|places| - 1]), db[places[|places| - 1]])
  }

  lemma ListedNone(db: seq<Triplet>, header: string)
    ensures Listed(db, header, []) == header
  {
  }

  lemma ListedStep(db: seq<Triplet>, header: string, places: seq<nat>, i: nat)
    requires ArePlaces(db, places) && i < |db|
    ensures ArePlaces(db, places + [i])
    ensures Listed(db, header, places + [i]) == WithTriplet(Listed(db, header, places), db[i])
  {
    hide WithTriplet;
    assert (places + [i])[..|places|] == places;
  }

  function Reply(db: seq<Triplet>, header: string, places: seq<nat>): Option<string>
    requires ArePlaces(db, places)
  {
    if places != [] then Some(Listed(db, header, places))
    else if |header| + |FAILURE| < REPLY_SIZE then Some(header + FAILURE) else None
  }

  /** A triplet in the format of the protocol: Kc, SRES and RAND in hexadecimal. */
  function TripletText(t: Triplet): (s: string)
    ensures |s| == 59
  {
    " " + HexText(t.kc) + ":" + HexText(t.sres) + ":" + HexText(t.rand)
  }

  /** Where the fields stand. */
  lemma TripletLayout(t: Triplet)
    ensures var s := TripletText(t);
            && s[0] == ' ' && s[1..17] == HexText(t.kc) && s[17] == ':' && s[18..26] == HexText(t.sres)
            && s[26] == ':' && s[27..] == HexText(t.rand)
  {
    hide HexText;
  }

  function FullText(db: seq<Triplet>, header: string, places: seq<nat>): (s: string)
    requires ArePlaces(db, places)
    ensures |s| == |header| + 59 * |places|
  {
    if places == [] then header
    else FullText(db, header, places[..|places| - 1]) + TripletText(db[places[|places| - 1]])
  }

  lemma TripletFits(text: string, t: Triplet)
    ensures text <= WithTriplet(text, t)
    ensures if |text| + 59 < REPLY_SIZE then WithTriplet(text, t) == text + TripletText(t)
            else |WithTriplet(text, t)| < |text| + 59
  {
    hide HexText, WithChar, WithHex;
    var a := WithChar(text, ' ');
    var b := WithHex(a, t.kc);
    var c := WithChar(b, ':');
    var d := WithHex(c, t.sres);
    var e := WithChar(d, ':');
    if |text| + 59 < REPLY_SIZE {
      assert WithHex(e, t.rand) == text + TripletText(t);
    }
  }

  /** The reply lists all its triplets in full if and only if their text fits into the buffer;
      otherwise it is cut, but the cut never changes what stands before it. */
  lemma {:induction false} ReplyIsComplete(db: seq<Triplet>, header: string, places: seq<nat>)
    requires ArePlaces(db, places)
    ensures Listed(db, header, places) == FullText(db, header, places) <==>
            places == [] || |header| + 59 * |places| < 1000
    ensures |Listed(db, header, places)| <= |header| + 59 * |places|
    ensures places != [] && |header| + 59 * |places| >= REPLY_SIZE ==>
              |Listed(db, header, places)| < |header| + 59 * |places|
  {
    hide WithTriplet, TripletText;
    if places != [] {
      var n := |places| - 1;
      ReplyIsComplete(db, header, places[..n]);
      TripletFits(Listed(db, header, places[..n]), db[places[n]]);
    }
  }

  /** So the triplets that fit come first in the reply, in full. */
  lemma {:induction false} ReplyStarts(db: seq<Triplet>, header: string, places: seq<nat>, m: nat)
    requires ArePlaces(db, places) && m <= |places| && (m == 0 || |header| + 59 * m < REPLY_SIZE)
    ensures FullText(db, header, places[..m]) <= Listed(db, header, places)
  {
    hide WithTriplet, TripletText;
    var n := |places|;
    if m == n {
      assert places[..m] == places;
      ReplyIsComplete(db, header, places);
    } else {
      ReplyStarts(db, header, places[..n - 1], m);
      assert places[..n - 1][..m] == places[..m];
      TripletFits(Listed(db, header, places[..n - 1]), db[places[n - 1]]);
    }
  }

  /** At least three challenges, and more if more are wanted. */
  function Challenges(wanted: Option<int>): (n: nat)
    ensures n >= 3 && (wanted.Some? ==> n >= wanted.value)
    ensures n == 3 || (wanted.Some? && n == wanted.value)
  {
    if wanted.Some? && wanted.value >= MAX_CHAL then wanted.value else MAX_CHAL
  }

  /** n answers out of a cycle, over and over. */
  function Replies(cycle: seq<nat>, n: nat): (r: seq<nat>)
    ensures |r| == if cycle == [] then 0 else n
  {
    if cycle == [] then [] else seq(n, j requires 0 <= j => cycle[j % |cycle|])
  }

  lemma NextReply(cycle: seq<nat>, n: nat)
    requires cycle != []
    ensures Replies(cycle, n + 1) == Replies(cycle, n) + [RotatedBy(cycle, n)[0]]
  {
    RotatedIs(cycle, n, 0);
  }

  /** A subscriber with k triplets gets all of them in k calls, in list order around the cursor,
      each once; then the same again. */
  lemma CycleIsComplete(db: seq<Triplet>, imsi: string, pos: nat)
    requires pos <= |db|
    ensures forall i :: i in Cycle(db, imsi, pos) <==> 0 <= i < |db| && db[i].imsi == imsi
    ensures Distinct(Cycle(db, imsi, pos))
    ensures |Cycle(db, imsi, pos)| == |Owned(db, imsi, 0, |db|)|
    ensures RotatedBy(Cycle(db, imsi, pos), |Cycle(db, imsi, pos)|) == Cycle(db, imsi, pos)
    ensures Cycle(db, imsi, pos) != [] ==>
              Replies(Cycle(db, imsi, pos), |Cycle(db, imsi, pos)|) == Cycle(db, imsi, pos)
  {
    hide Owned;
    var behind, before := Owned(db, imsi, pos, |db|), Owned(db, imsi, 0, pos);
    OwnedIs(db, imsi, pos, |db|);
    OwnedIs(db, imsi, 0, pos);
    assert forall i :: 0 <= i < |behind| ==> behind[i] in behind;
    assert forall i :: 0 <= i < |before| ==> before[i] in before;
    OwnedSplit(db, imsi, 0, pos, |db|);
    FullTurn(Cycle(db, imsi, pos));
  }

  lemma FullTurn(cycle: seq<nat>)
    ensures RotatedBy(cycle, |cycle|) == cycle
    ensures cycle != [] ==> Replies(cycle, |cycle|) == cycle
  {
    var k := |cycle|;
    forall j | 0 <= j < k ensures RotatedBy(cycle, k)[j] == cycle[j] && j % k == j {
      RotatedIs(cycle, k, j);
      OnceAround(j, k);
      Modulo(j, 0, k, j);
    }
  }

  predicate Distinct(s: seq<nat>) {
    forall i, j :: 0 <= i < j < |s| ==> s[i] != s[j]
  }

  /** The challenges of one reply are all different exactly when the subscriber has no triplet at
      all or as many as the reply holds. */
  lemma ChallengesDiffer(cycle: seq<nat>, n: nat)
    requires Distinct(cycle)
    ensures Distinct(Replies(cycle, n)) <==> cycle == [] || n <= |cycle|
  {
    var k, r := |cycle|, Replies(cycle, n);
    if 0 < k < n {
      Modulo(0, 0, k, 0);
      Modulo(k, 1, k, 0);
      assert r[0] == r[k];
    } else if k > 0 {
      forall i, j | 0 <= i < j < |r| ensures r[i] != r[j] {
        Modulo(i, 0, k, i);
        Modulo(j, 0, k, j);
      }
    }
  }

  /** A subscriber with one triplet gets the same challenge three times or more. */
  lemma SingleTripletRepeats(db: seq<Triplet>, imsi: string, pos: nat, i: nat, wanted: Option<int>)
    requires pos <= |db| && Owned(db, imsi, 0, |db|) == [i]
    ensures var sent := Replies(Cycle(db, imsi, pos), Challenges(wanted));
            && |sent| >= 3 && (forall j :: 0 <= j < |sent| ==> sent[j] == i) && !Distinct(sent)
  {
    hide Owned;
    var cycle := Cycle(db, imsi, pos);
    OwnedSplit(db, imsi, 0, pos, |db|);
    assert cycle == [i];
    ChallengesDiffer(cycle, Challenges(wanted));
  }

  // ----- Requests of several subscribers: they share the cursor -----

  function Hit(db: seq<Triplet>, pos: nat, imsi: string): Option<nat>
    requires pos <= |db|
  {
    var c := Cycle(db, imsi, pos);
    if c == [] then None else Some(c[0])
  }

  /** The cursor after a call. */
  function Moved(db: seq<Triplet>, pos: nat, imsi: string): (to: nat)
    requires pos <= |db|
    ensures to <= |db|
  {
    var c := Cycle(db, imsi, pos);
    if c == [] then pos else HitIsPlace(db, imsi, pos); c[0] + 1
  }

  lemma HitIsPlace(db: seq<Triplet>, imsi: string, pos: nat)
    requires pos <= |db| && Cycle(db, imsi, pos) != []
    ensures Cycle(db, imsi, pos)[0] < |db|
  {
    hide Owned;
    OwnedIs(db, imsi, pos, |db|);
    OwnedIs(db, imsi, 0, pos);
    assert Cycle(db, imsi, pos)[0] in Cycle(db, imsi, pos);
  }

  /** The cursor after calls for several subscribers. */
  function Cursor(db: seq<Triplet>, pos: nat, calls: seq<string>): (to: nat)
    requires pos <= |db|
    ensures to <= |db|
  {
    if calls == [] then pos else Moved(db, Cursor(db, pos, calls[..|calls| - 1]), calls[|calls| - 1])
  }

  /** The triplets of a subscriber that the cursor passes, or stops at, on its way from pos to to. */
  function Passed(db: seq<Triplet>, imsi: string, pos: nat, to: nat): seq<nat>
    requires pos <= |db| && to <= |db|
  {
    if pos < to then Owned(db, imsi, pos, to) else Owned(db, imsi, pos, |db|) + Owned(db, imsi, 0, to)
  }

  /** How many of them one call passes; a call that finds nothing leaves the cursor. */
  function PassedByCall(db: seq<Triplet>, imsi: string, pos: nat, call: string): nat
    requires pos <= |db|
  {
    if Hit(db, pos, call) == None then 0 else |Passed(db, imsi, pos, Moved(db, pos, call))|
  }

  function PassedByCalls(db: seq<Triplet>, imsi: string, pos: nat, calls: seq<string>): nat
    requires pos <= |db|
  {
    if calls == [] then 0
    else
      var before := calls[..|calls| - 1];
      PassedByCalls(db, imsi, pos, before)
      + PassedByCall(db, imsi, Cursor(db, pos, before), calls[|calls| - 1])
  }

  lemma RotateParts(b: seq<nat>, r: seq<nat>)
    ensures RotatedBy(b + r, |b|) == r + b
  {
    hide RotatedBy;
    var s, n := b + r, |b|;
    forall j | 0 <= j < |s| ensures RotatedBy(s, n)[j] == (r + b)[j] {
      RotatedIs(s, n, j);
      Wrapped(n + j, |s|);
    }
  }

  lemma Wrapped(n: nat, m: nat)
    requires n < 2 * m
    ensures n % m == if n < m then n else n - m
  {
    if n < m {
      Modulo(n, 0, m, n);
    } else {
      Modulo(n, 1, m, n - m);
    }
  }

  /** Wherever the cursor goes, a subscriber's cycle rotates by the triplets of his it passes. */
  lemma MoveRotates(db: seq<Triplet>, imsi: string, pos: nat, to: nat)
    requires pos <= |db| && to <= |db|
    ensures Cycle(db, imsi, to) == RotatedBy(Cycle(db, imsi, pos), |Passed(db, imsi, pos, to)|)
  {
    hide Owned;
    var b := Passed(db, imsi, pos, to);
    if pos < to {
      OwnedSplit(db, imsi, pos, to, |db|);
      OwnedSplit(db, imsi, 0, pos, to);
      var r := Owned(db, imsi, to, |db|) + Owned(db, imsi, 0, pos);
      Shift(b, Owned(db, imsi, to, |db|), Owned(db, imsi, 0, pos));
      RotateParts(b, r);
    } else {
      OwnedSplit(db, imsi, 0, to, pos);
      OwnedSplit(db, imsi, to, pos, |db|);
      var r := Owned(db, imsi, to, pos);
      Shift(Owned(db, imsi, pos, |db|), Owned(db, imsi, 0, to), r);
      Shift(r, Owned(db, imsi, pos, |db|), Owned(db, imsi, 0, to));
      RotateParts(b, r);
    }
  }

  lemma Shift(a: seq<nat>, b: seq<nat>, c: seq<nat>)
    ensures a + b + c == a + (b + c) && b + c + a == b + (c + a)
  {
  }

  lemma {:induction false} RotateTwice(s: seq<nat>, m: nat, n: nat)
    ensures RotatedBy(RotatedBy(s, m), n) == RotatedBy(s, m + n)
    decreases n
  {
    hide Rotated;
    if n > 0 {
      RotateTwice(s, m, n - 1);
    }
  }

  lemma {:induction false} CallsRotate(db: seq<Triplet>, imsi: string, pos: nat, calls: seq<string>)
    requires pos <= |db|
    ensures Cycle(db, imsi, Cursor(db, pos, calls))
         == RotatedBy(Cycle(db, imsi, pos), PassedByCalls(db, imsi, pos, calls))
  {
    hide Cycle, Passed, RotatedBy;
    if calls == [] {
      RotateNone(Cycle(db, imsi, pos));
    } else {
      var before, call := calls[..|calls| - 1], calls[|calls| - 1];
      var p := Cursor(db, pos, before);
      CallsRotate(db, imsi, pos, before);
      MoveRotates(db, imsi, p, Moved(db, p, call));
      RotateNone(Cycle(db, imsi, p));
      RotateTwice(Cycle(db, imsi, pos), PassedByCalls(db, imsi, pos, before), PassedByCall(db, imsi, p, call));
    }
  }

  lemma RotateNone(s: seq<nat>)
    ensures RotatedBy(s, 0) == s
  {
  }

  /** Over any calls for any subscribers, a subscriber is answered with the place of his cycle given
      by how many of his triplets the cursor has passed. So he gets the same triplet again exactly
      if that number is a multiple of how many he has. */
  lemma AnswerAfterCalls(db: seq<Triplet>, imsi: string, pos: nat, calls: seq<string>)
    requires pos <= |db| && Cycle(db, imsi, pos) != []
    ensures var c, m := Cycle(db, imsi, pos), PassedByCalls(db, imsi, pos, calls);
            && Hit(db, Cursor(db, pos, calls), imsi) == Some(c[m % |c|])
            && (Hit(db, Cursor(db, pos, calls), imsi) == Hit(db, pos, imsi) <==> m % |c| == 0)
            && (forall x :: 0 <= x < |c| ==> (Hit(db, Cursor(db, pos, calls), imsi) == Some(c[x]) <==> m % |c| == x))
  {
    hide Cycle, PassedByCalls;
    var c, m := Cycle(db, imsi, pos), PassedByCalls(db, imsi, pos, calls);
    CallsRotate(db, imsi, pos, calls);
    RotatedIs(c, m, 0);
    CycleIsComplete(db, imsi, pos);
    assert m % |c| != 0 ==> c[0] != c[m % |c|];
  }

  /** A triplet of a subscriber, at place x of his cycle, is never sent in a run of calls if and
      only if at none of his calls the number of his triplets passed is x modulo how many he has. */
  lemma NeverSent(db: seq<Triplet>, imsi: string, pos: nat, calls: seq<string>, x: nat)
    requires pos <= |db| && x < |Cycle(db, imsi, pos)|
    ensures var c := Cycle(db, imsi, pos);
            (forall n :: 0 <= n < |calls| && calls[n] == imsi ==>
               Hit(db, Cursor(db, pos, calls[..n]), imsi) != Some(c[x])) <==>
            (forall n :: 0 <= n < |calls| && calls[n] == imsi ==>
               PassedByCalls(db, imsi, pos, calls[..n]) % |c| != x)
  {
    hide Cycle, PassedByCalls, Hit, Cursor;
    forall n | 0 <= n < |calls|
      ensures Hit(db, Cursor(db, pos, calls[..n]), imsi) == Some(Cycle(db, imsi, pos)[x]) <==>
              PassedByCalls(db, imsi, pos, calls[..n]) % |Cycle(db, imsi, pos)| == x
    {
      AnswerAfterCalls(db, imsi, pos, calls[..n]);
    }
  }

  /** His own call counts one. */
  lemma OwnCallPassesOne(db: seq<Triplet>, imsi: string, pos: nat)
    requires pos <= |db| && Cycle(db, imsi, pos) != []
    ensures PassedByCall(db, imsi, pos, imsi) == 1
  {
    hide Owned;
    var i := Cycle(db, imsi, pos)[0];
    HitIsPlace(db, imsi, pos);
    OwnedIs(db, imsi, pos, |db|);
    OwnedIs(db, imsi, 0, pos);
    assert i in Cycle(db, imsi, pos);
    if Owned(db, imsi, pos, |db|) != [] {
      NoneBefore(db, imsi, pos, |db|);
      OwnedFirst(db, imsi, pos, i, |db|);
    } else {
      NoneBefore(db, imsi, 0, pos);
      OwnedFirst(db, imsi, 0, i, pos);
    }
  }

  lemma NoneBefore(db: seq<Triplet>, imsi: string, lo: nat, hi: nat)
    requires lo <= hi <= |db| && Owned(db, imsi, lo, hi) != []
    ensures var i := Owned(db, imsi, lo, hi)[0]; lo <= i < hi && db[i].imsi == imsi && Owned(db, imsi, lo, i) == []
  {
    hide Owned;
    var s := Owned(db, imsi, lo, hi);
    var i := s[0];
    OwnedIs(db, imsi, lo, hi);
    assert i in s;
    OwnedSplit(db, imsi, lo, i, hi);
    OwnedIs(db, imsi, lo, i);
  }

  // ----- Two subscribers in turn -----

  function InTurn(a: string, b: string, n: nat): seq<string> {
    if n == 0 then [] else InTurn(a, b, n - 1) + [a, b]
  }

  lemma Places(db: seq<Triplet>, a: string, b: string)
    requires |db| == 3 && a != b && db[0].imsi == a && db[1].imsi == b && db[2].imsi == a
    ensures Cycle(db, a, 2) == [2, 0] && Cycle(db, b, 3) == [1]
    ensures Cycle(db, a, 3) == [0, 2] && Cycle(db, b, 1) == [1]
  {
    assert Owned(db, a, 3, 3) == Owned(db, b, 3, 3) == [];
    assert Owned(db, a, 2, 3) == [2] && Owned(db, b, 2, 3) == [];
    assert Owned(db, a, 1, 3) == [2] && Owned(db, b, 1, 3) == [1];
    assert Owned(db, a, 0, 3) == [0, 2] && Owned(db, b, 0, 3) == [1];
    assert Owned(db, a, 1, 2) == [] && Owned(db, a, 0, 2) == [0];
    assert Owned(db, b, 0, 1) == [];
  }

  /** Triplets owned by a, b, a in list order. From the null cursor of a started gateway, with calls
      for a and b in turn, a gets the first triplet once and the last one every time after that. */
  lemma {:induction false} OneIsStarved(db: seq<Triplet>, a: string, b: string, n: nat)
    requires |db| == 3 && a != b && db[0].imsi == a && db[1].imsi == b && db[2].imsi == a
    ensures Hit(db, Cursor(db, |db|, InTurn(a, b, n)), a) == Some(if n == 0 then 0 else 2)
    ensures n > 0 ==> Cursor(db, |db|, InTurn(a, b, n)) == 2
  {
    hide Cycle;
    Places(db, a, b);
    if n > 0 {
      OneIsStarved(db, a, b, n - 1);
      var before, calls := InTurn(a, b, n - 1), InTurn(a, b, n);
      assert calls[..|calls| - 1] == before + [a];
      assert (before + [a])[..|before|] == before;
    }
  }
}
