/** The event traffic of the driver on values: what an interrupt pass and the two ioctls do to the
    queues, and what holds over every run of them (art/modules/dk_isr.c, art/modules/dk_func.c). */
module DriverSpec {

  import opened Bits
  import opened EventQueue

  const ISR_INTERRUPT: Word := 0x10

  // ----- One interrupt pass -----

  predicate Admits(mask: Word, pri: Word) {
    pri & mask != 0
  }

  predicate Matches(e: EventData, pri: Word) {
    e.kind == ISR_INTERRUPT && Admits(e.param1, pri)
  }

  /** An event asks for an interrupt if it is of interrupt type and its mask has a bit in common
      with the primary register. */
  ghost predicate AsksFor(e: EventData, pri: Word) {
    e.kind == 0x10 && ShareBit(e.param1, pri)
  }

  lemma MatchesByBits(e: EventData, pri: Word)
    ensures Matches(e, pri) <==> AsksFor(e, pri)
  {
    hide ShareBit, Admits;
    MaskByBits(e.param1, pri);
  }

  /** A mask lets a register through if and only if some bit is set in both. */
  lemma MaskByBits(mask: Word, pri: Word)
    ensures Admits(mask, pri) <==> ShareBit(mask, pri)
  {
    hide ShareBit;
    CommonBit(mask, pri);
    MaskIsAnd(mask, pri);
  }

  lemma MaskIsAnd(mask: Word, pri: Word)
    ensures Admits(mask, pri) <==> And(mask, pri) != 0
  {
  }

  predicate OneShot(e: EventData) {
    e.persistent == 0
  }

  /** The event with the interrupt status registers written into its result. */
  function Report(e: EventData, pri: Word, sec: seq<Word>): (r: EventData)
    ensures r == e.(result := r.result)
  {
    e.(result := [pri] + sec)
  }

  datatype Scan = Scan(isr: seq<EventData>, fired: seq<EventData>)

  /** The scan from position k on: the ISR queue afterwards, and the events pushed onto the
      triggered queue. copies(k) says whether memory is found for a copy of the event at k. */
  function ScanFrom(isr: seq<EventData>, k: nat, pri: Word, sec: seq<Word>, copies: nat -> bool): Scan
    requires k <= |isr|
    decreases |isr| - k
  {
    if k == |isr| then Scan(isr, [])
    else if !Matches(isr[k], pri) then ScanFrom(isr, k + 1, pri, sec, copies)
    else
      var e := Report(isr[k], pri, sec);
      if OneShot(e) then Scan(RemoveAt(isr, k), [e])
      else if !copies(k) then Scan(isr[k := e], [])
      else
        var rest := ScanFrom(isr[k := e], k + 1, pri, sec, copies);
        Scan(rest.isr, [e] + rest.fired)
  }

  /** Where the scan ends: at the first matching event that is one-shot or cannot be copied. */
  function StopAt(isr: seq<EventData>, k: nat, pri: Word, copies: nat -> bool): (s: nat)
    requires k <= |isr|
    ensures k <= s <= |isr|
    ensures s < |isr| ==> Matches(isr[s], pri) && (OneShot(isr[s]) || !copies(s))
    ensures forall i :: k <= i < s && Matches(isr[i], pri) ==> !OneShot(isr[i]) && copies(i)
    decreases |isr| - k
  {
    if k == |isr| || (Matches(isr[k], pri) && (OneShot(isr[k]) || !copies(k))) then k
    else StopAt(isr, k + 1, pri, copies)
  }

  /** The matching events, reported, in order. */
  function Reported(es: seq<EventData>, pri: Word, sec: seq<Word>): seq<EventData> {
    if es == [] then []
    else (if Matches(es[0], pri) then [Report(es[0], pri, sec)] else []) + Reported(es[1..], pri, sec)
  }

  /** The events, those that match with their new result. */
  function Stamped(es: seq<EventData>, pri: Word, sec: seq<Word>): (r: seq<EventData>)
    ensures |r| == |es|
  {
    seq(|es|, i requires 0 <= i < |es| => if Matches(es[i], pri) then Report(es[i], pri, sec) else es[i])
  }

  lemma {:induction false} StopAtSuffix(a: seq<EventData>, b: seq<EventData>, k: nat, pri: Word, copies: nat -> bool)
    requires |a| == |b| && k <= |a| && a[k..] == b[k..]
    ensures StopAt(a, k, pri, copies) == StopAt(b, k, pri, copies)
    decreases |a| - k
  {
    if k < |a| {
      assert a[k] == a[k..][0] == b[k..][0] == b[k];
      assert a[k + 1..] == a[k..][1..] == b[k..][1..] == b[k + 1..];
      StopAtSuffix(a, b, k + 1, pri, copies);
    }
  }

  /** What a scan that stops at s makes of the queue and what it triggers. */
  function Expected(isr: seq<EventData>, k: nat, s: nat, pri: Word, sec: seq<Word>): Scan
    requires k <= s <= |isr|
  {
    var front := isr[..k] + Stamped(isr[k..s], pri, sec);
    var before := Reported(isr[k..s], pri, sec);
    if s == |isr| then Scan(front, before)
    else if OneShot(isr[s]) then Scan(front + isr[s + 1..], before + [Report(isr[s], pri, sec)])
    else Scan(front + [Report(isr[s], pri, sec)] + isr[s + 1..], before)
  }

  lemma ExpectedHere(isr: seq<EventData>, s: nat, pri: Word, sec: seq<Word>)
    requires s <= |isr|
    ensures Expected(isr, s, s, pri, sec) ==
              if s == |isr| then Scan(isr, [])
              else if OneShot(isr[s]) then Scan(RemoveAt(isr, s), [Report(isr[s], pri, sec)])
              else Scan(isr[s := Report(isr[s], pri, sec)], [])
  {
    assert isr[s..s] == [];
    assert isr[..s] + Stamped([], pri, sec) == isr[..s];
  }

  lemma ExpectedStep(isr: seq<EventData>, k: nat, s: nat, pri: Word, sec: seq<Word>)
    requires k < s <= |isr|
    ensures var e := if Matches(isr[k], pri) then Report(isr[k], pri, sec) else isr[k];
            var rest := Expected(isr[k := e], k + 1, s, pri, sec);
            Expected(isr, k, s, pri, sec)
            == Scan(rest.isr, (if Matches(isr[k], pri) then [e] else []) + rest.fired)
  {
    hide Matches, Report;
    var e := if Matches(isr[k], pri) then Report(isr[k], pri, sec) else isr[k];
    var next := isr[k := e];
    assert isr[k..s][1..] == next[k + 1..s];
    assert Stamped(isr[k..s], pri, sec) == [e] + Stamped(next[k + 1..s], pri, sec);
    assert next[..k + 1] == isr[..k] + [e];
    assert next[..k + 1] + Stamped(next[k + 1..s], pri, sec) == isr[..k] + Stamped(isr[k..s], pri, sec);
    if s < |isr| {
      assert next[s + 1..] == isr[s + 1..];
    }
  }

  /** What a pass does, in one piece: up to the stop, every matching event is reported in place and
      a copy of it is triggered; the event at the stop, if one-shot, moves; nothing after it changes. */
  lemma {:induction false} ScanMeaning(isr: seq<EventData>, k: nat, pri: Word, sec: seq<Word>, copies: nat -> bool)
    requires k <= |isr|
    ensures ScanFrom(isr, k, pri, sec, copies) == Expected(isr, k, StopAt(isr, k, pri, copies), pri, sec)
    decreases |isr| - k
  {
    hide Expected, Matches, Report;
    var s := StopAt(isr, k, pri, copies);
    if k == s {
      ExpectedHere(isr, s, pri, sec);
    } else {
      var e := if Matches(isr[k], pri) then Report(isr[k], pri, sec) else isr[k];
      var next := isr[k := e];
      assert next[k + 1..] == isr[k + 1..];
      StopAtSuffix(isr, next, k + 1, pri, copies);
      ScanMeaning(next, k + 1, pri, sec, copies);
      ExpectedStep(isr, k, s, pri, sec);
      assert !Matches(isr[k], pri) ==> next == isr;
    }
  }

  // ----- When a pass triggers everything that matches -----

  lemma {:induction false} ReportedAppend(a: seq<EventData>, b: seq<EventData>, pri: Word, sec: seq<Word>)
    ensures Reported(a + b, pri, sec) == Reported(a, pri, sec) + Reported(b, pri, sec)
  {
    hide Matches, Report;
    if a == [] {
      assert a + b == b;
    } else {
      assert (a + b)[0] == a[0] && (a + b)[1..] == a[1..] + b;
      ReportedAppend(a[1..], b, pri, sec);
      var head := if Matches(a[0], pri) then [Report(a[0], pri, sec)] else [];
      hide Reported;
      ReportedHead(a, pri, sec);
      ReportedHead(a + b, pri, sec);
      Regrouped(head, Reported(a[1..], pri, sec), Reported(b, pri, sec));
    }
  }

  lemma ReportedHead(es: seq<EventData>, pri: Word, sec: seq<Word>)
    requires es != []
    ensures Reported(es, pri, sec)
         == (if Matches(es[0], pri) then [Report(es[0], pri, sec)] else []) + Reported(es[1..], pri, sec)
  {
    hide Matches, Report;
  }

  lemma Regrouped(a: seq<EventData>, b: seq<EventData>, c: seq<EventData>)
    ensures a + (b + c) == a + b + c
  {
  }

  predicate NoneMatches(es: seq<EventData>, pri: Word) {
    forall i :: 0 <= i < |es| ==> !Matches(es[i], pri)
  }

  lemma {:induction false} ReportedNone(es: seq<EventData>, pri: Word, sec: seq<Word>)
    ensures Reported(es, pri, sec) == [] <==> NoneMatches(es, pri)
  {
    hide Matches, Report;
    if es != [] {
      ReportedNone(es[1..], pri, sec);
      assert es == [es[0]] + es[1..];
    }
  }

  lemma ReportedSplit(isr: seq<EventData>, s: nat, pri: Word, sec: seq<Word>)
    requires s < |isr| && Matches(isr[s], pri)
    ensures Reported(isr, pri, sec)
         == Reported(isr[..s], pri, sec) + [Report(isr[s], pri, sec)] + Reported(isr[s + 1..], pri, sec)
  {
    hide Matches, Report;
    var e := isr[s];
    assert isr == isr[..s] + ([e] + isr[s + 1..]);
    ReportedAppend(isr[..s], [e] + isr[s + 1..], pri, sec);
    ReportedAppend([e], isr[s + 1..], pri, sec);
    assert [e][1..] == [];
    assert Reported([e], pri, sec) == [Report(e, pri, sec)] + Reported([], pri, sec);
  }

  /** The events that ask for the interrupt, reported: exactly these are in Reported. */
  lemma {:induction false} ReportedAre(es: seq<EventData>, pri: Word, sec: seq<Word>, e: EventData)
    ensures e in Reported(es, pri, sec) <==>
            exists i :: 0 <= i < |es| && AsksFor(es[i], pri) && e == es[i].(result := [pri] + sec)
  {
    hide Matches, AsksFor;
    if es != [] {
      ReportedAre(es[1..], pri, sec, e);
      MatchesByBits(es[0], pri);
      var rest := es[1..];
      if i :| 0 <= i < |rest| && AsksFor(rest[i], pri) && e == rest[i].(result := [pri] + sec) {
        assert AsksFor(es[i + 1], pri) && e == es[i + 1].(result := [pri] + sec);
      }
      if i :| 0 <= i < |es| && AsksFor(es[i], pri) && e == es[i].(result := [pri] + sec) {
        if i > 0 {
          assert rest[i - 1] == es[i];
        }
      }
    }
  }

  /** A pass triggers every registered event that asks for the interrupt if and only if it is not
      stopped, or no event behind the one-shot event that stops it asks as well. */
  lemma PassTriggersAll(isr: seq<EventData>, pri: Word, sec: seq<Word>, copies: nat -> bool)
    ensures ScanFrom(isr, 0, pri, sec, copies).fired == Reported(isr, pri, sec) <==>
            var s := StopAt(isr, 0, pri, copies);
            s == |isr| || (OneShot(isr[s]) && forall i :: s < i < |isr| ==> !AsksFor(isr[i], pri))
  {
    hide Matches, Report, ScanFrom, Reported, Stamped, NoneMatches, OneShot, AsksFor;
    ScanMeaning(isr, 0, pri, sec, copies);
    var s := StopAt(isr, 0, pri, copies);
    assert isr[0..s] == isr[..s];
    if s == |isr| {
      assert isr[..s] == isr;
    } else {
      ReportedSplit(isr, s, pri, sec);
      ReportedNone(isr[s + 1..], pri, sec);
      NoneAsks(isr, s, pri);
      PrefixOnly(Reported(isr[..s], pri, sec), Report(isr[s], pri, sec), Reported(isr[s + 1..], pri, sec));
    }
  }

  lemma NoneAsks(isr: seq<EventData>, s: nat, pri: Word)
    requires s < |isr|
    ensures NoneMatches(isr[s + 1..], pri) <==> forall i :: s < i < |isr| ==> !AsksFor(isr[i], pri)
  {
    hide Matches, AsksFor;
    var rest := isr[s + 1..];
    forall i | 0 <= i < |rest|
      ensures Matches(rest[i], pri) <==> AsksFor(isr[s + 1 + i], pri)
    {
      MatchesByBits(rest[i], pri);
    }
    if NoneMatches(rest, pri) {
      forall i | s < i < |isr|
        ensures !AsksFor(isr[i], pri)
      {
        assert isr[i] == rest[i - s - 1];
      }
    }
  }

  lemma PrefixOnly(a: seq<EventData>, e: EventData, b: seq<EventData>)
    ensures a != a + [e] + b
    ensures a + [e] == a + [e] + b <==> b == []
  {
    assert |a + [e] + b| == |a| + 1 + |b|;
  }

  // ----- The two ioctls -----

  /** The sixth parameter is split into two 16-bit halves on creation and joined on delivery. */
  function LowHalf(p: Word): Word {
    p & 0xFFFF
  }

  function HighHalf(p: Word): Word {
    (p >> 16) & 0xFFFF
  }

  function JoinHalves(high: Word, low: Word): Word {
    (high << 16) | low
  }

  lemma JoinSplit(p: Word)
    ensures JoinHalves(HighHalf(p), LowHalf(p)) == p
  {
  }

  /** The parameters of an event request: type, persistent, param1 to param3, handle. */
  type Request = p: seq<Word> | |p| == 6 witness [0, 0, 0, 0, 0, 0]

  /** createEvent with the default mask of the ioctl. */
  function NewEvent(tag: nat, p: Request): EventData {
    EventData(tag, p[0], p[1], if p[2] == 0 then 0xFFFF_FFFF else p[2], p[3], p[4],
              LowHalf(p[5]), HighHalf(p[5]), [0, 0, 0, 0, 0, 0])
  }

  /** What GET_NEXT_EVENT writes into the parameter array. */
  function Delivered(e: EventData): seq<Word> {
    [e.kind, e.persistent, e.param1, e.param2, e.param3, JoinHalves(e.f2Handle, e.eventID)] + e.result
  }

  // ----- Runs -----

  /** The two queues, and what happened so far: the requests accepted, in order; the events pushed
      onto the triggered queue, in order; the events delivered, in order. */
  datatype System = System(
    isr: seq<EventData>, triggered: seq<EventData>,
    requests: seq<Request>, log: seq<EventData>, delivered: seq<EventData>)

  /** The five secondary interrupt status registers. */
  type Secondary = sec: seq<Word> | |sec| == 5 witness [0, 0, 0, 0, 0]

  datatype Step =
    | Create(p: Request, valid: bool, memory: bool)
    | Interrupt(pri: Word, sec: Secondary, copies: nat -> bool)
    | GetNext

  const START := System([], [], [], [], [])

  predicate Accepted(st: Step)
    requires st.Create?
  {
    st.valid && st.memory && st.p[0] == ISR_INTERRUPT
  }

  /** The queue counter has 16 bits: a multiple of 65536 events looks like none. */
  predicate CounterShows(n: nat) {
    n % 0x1_0000 != 0
  }

  function Next(s: System, st: Step): System {
    match st
    case Create(p, valid, memory) =>
      if !Accepted(st) then s
      else s.(isr := s.isr + [NewEvent(|s.requests|, p)], requests := s.requests + [p])
    case Interrupt(pri, sec, copies) =>
      var r := ScanFrom(s.isr, 0, pri, sec, copies);
      s.(isr := r.isr, triggered := s.triggered + r.fired, log := s.log + r.fired)
    case GetNext =>
      if !CounterShows(|s.triggered|) then s
      else s.(triggered := s.triggered[1..], delivered := s.delivered + [s.triggered[0]])
  }

  function Run(s: System, steps: seq<Step>): System {
    if steps == [] then s else Next(Run(s, steps[..|steps| - 1]), steps[|steps| - 1])
  }

  /** An event carries the parameters of the request it goes back to. */
  predicate Faithful(e: EventData, requests: seq<Request>) {
    e.tag < |requests| && e == NewEvent(e.tag, requests[e.tag]).(result := e.result)
  }

  predicate AllFaithful(es: seq<EventData>, requests: seq<Request>) {
    forall i :: 0 <= i < |es| ==> Faithful(es[i], requests)
  }

  /** How many events of a sequence go back to request t. */
  function Count(es: seq<EventData>, t: nat): (n: nat)
    ensures n <= |es|
  {
    if es == [] then 0
    else Count(es[..|es| - 1], t) + if es[|es| - 1].tag == t then 1 else 0
  }

  predicate OneShotRequest(p: Request) {
    p[1] == 0
  }

  lemma {:induction false} CountAppend(a: seq<EventData>, b: seq<EventData>, t: nat)
    ensures Count(a + b, t) == Count(a, t) + Count(b, t)
  {
    if b == [] {
      assert a + b == a;
    } else {
      var n := |b| - 1;
      assert (a + b)[..|a| + n] == a + b[..n];
      CountAppend(a, b[..n], t);
    }
  }

  lemma CountSplit(es: seq<EventData>, k: nat, t: nat)
    requires k < |es|
    ensures Count(es, t) == Count(es[..k], t) + (if es[k].tag == t then 1 else 0) + Count(es[k + 1..], t)
  {
    assert es == es[..k] + [es[k]] + es[k + 1..];
    CountAppend(es[..k] + [es[k]], es[k + 1..], t);
    CountAppend(es[..k], [es[k]], t);
    assert Count([es[k]], t) == Count([], t) + if es[k].tag == t then 1 else 0;
  }

  lemma CountUpdate(es: seq<EventData>, k: nat, e: EventData, t: nat)
    requires k < |es| && e.tag == es[k].tag
    ensures Count(es[k := e], t) == Count(es, t)
  {
    CountSplit(es, k, t);
    CountSplit(es[k := e], k, t);
    assert es[k := e][..k] == es[..k] && es[k := e][k + 1..] == es[k + 1..];
  }

  lemma CountRemove(es: seq<EventData>, k: nat, t: nat)
    requires k < |es|
    ensures Count(es, t) == Count(RemoveAt(es, k), t) + if es[k].tag == t then 1 else 0
  {
    CountSplit(es, k, t);
    CountAppend(es[..k], es[k + 1..], t);
  }

  lemma {:induction false} ScanFaithful(isr: seq<EventData>, k: nat, pri: Word, sec: Secondary, copies: nat -> bool,
                                        requests: seq<Request>)
    requires k <= |isr| && AllFaithful(isr, requests)
    ensures var r := ScanFrom(isr, k, pri, sec, copies);
            AllFaithful(r.isr, requests) && AllFaithful(r.fired, requests)
    decreases |isr| - k
  {
    hide Matches, NewEvent;
    if k < |isr| {
      var e := Report(isr[k], pri, sec);
      assert Faithful(isr[k], requests);
      FaithfulReport(isr[k], pri, sec, requests);
      ScanFaithful(isr, k + 1, pri, sec, copies, requests);
      ScanFaithful(isr[k := e], k + 1, pri, sec, copies, requests);
    }
  }

  /** A pass never loses a one-shot event and never takes a persistent one out of the ISR queue,
      whether or not copies can be made. */
  lemma {:induction false} ScanCounts(isr: seq<EventData>, k: nat, pri: Word, sec: Secondary, copies: nat -> bool,
                                      requests: seq<Request>, t: nat)
    requires k <= |isr| && AllFaithful(isr, requests) && t < |requests|
    ensures var r := ScanFrom(isr, k, pri, sec, copies);
            Count(r.isr, t) + (if OneShotRequest(requests[t]) then Count(r.fired, t) else 0) == Count(isr, t)
    decreases |isr| - k
  {
    hide Matches, NewEvent, Count;
    CountNone(t);
    if k < |isr| {
      var e := Report(isr[k], pri, sec);
      assert Faithful(isr[k], requests);
      FaithfulReport(isr[k], pri, sec, requests);
      CountOne(e, t);
      if !Matches(isr[k], pri) {
        ScanCounts(isr, k + 1, pri, sec, copies, requests, t);
      } else if OneShot(e) {
        CountRemove(isr, k, t);
      } else {
        CountUpdate(isr, k, e, t);
        if copies(k) {
          ScanCounts(isr[k := e], k + 1, pri, sec, copies, requests, t);
          CountAppend([e], ScanFrom(isr[k := e], k + 1, pri, sec, copies).fired, t);
        }
      }
    }
  }

  lemma CountNone(t: nat)
    ensures Count([], t) == 0
  {
  }

  lemma CountOne(e: EventData, t: nat)
    ensures Count([e], t) == if e.tag == t then 1 else 0
  {
    assert [e][..0] == [];
  }

  lemma FaithfulReport(e: EventData, pri: Word, sec: Secondary, requests: seq<Request>)
    requires Faithful(e, requests)
    ensures Faithful(Report(e, pri, sec), requests)
    ensures OneShot(e) <==> OneShotRequest(requests[e.tag])
  {
  }

  /** What holds in every reachable state. */
  ghost predicate Invariant(s: System) {
    && AllFaithful(s.isr, s.requests)
    && AllFaithful(s.log, s.requests)
    && s.log == s.delivered + s.triggered
    && (forall t :: 0 <= t < |s.requests| ==>
          Count(s.isr, t) + (if OneShotRequest(s.requests[t]) then Count(s.log, t) else 0) == 1)
  }

  lemma {:induction false} CountAbsent(es: seq<EventData>, requests: seq<Request>, t: nat)
    requires AllFaithful(es, requests) && t >= |requests|
    ensures Count(es, t) == 0
  {
    if es != [] {
      assert Faithful(es[|es| - 1], requests);
      CountAbsent(es[..|es| - 1], requests, t);
    }
  }

  lemma FaithfulGrows(es: seq<EventData>, requests: seq<Request>, p: Request)
    requires AllFaithful(es, requests)
    ensures AllFaithful(es, requests + [p])
  {
    forall i | 0 <= i < |es|
      ensures Faithful(es[i], requests + [p])
    {
      assert Faithful(es[i], requests);
    }
  }

  lemma CreateKeeps(s: System, p: Request)
    requires Invariant(s)
    ensures Invariant(s.(isr := s.isr + [NewEvent(|s.requests|, p)], requests := s.requests + [p]))
  {
    hide Count;
    var n, rs := |s.requests|, s.requests + [p];
    var e := NewEvent(n, p);
    FaithfulGrows(s.isr, s.requests, p);
    FaithfulGrows(s.log, s.requests, p);
    assert Faithful(e, rs);
    forall t | 0 <= t < |rs|
      ensures Count(s.isr + [e], t) + (if OneShotRequest(rs[t]) then Count(s.log, t) else 0) == 1
    {
      CountAppend(s.isr, [e], t);
      CountOne(e, t);
      if t == n {
        CountAbsent(s.isr, s.requests, t);
        CountAbsent(s.log, s.requests, t);
      } else {
        assert rs[t] == s.requests[t];
      }
    }
  }

  lemma InterruptKeeps(s: System, pri: Word, sec: Secondary, copies: nat -> bool)
    requires Invariant(s)
    ensures Invariant(Next(s, Interrupt(pri, sec, copies)))
  {
    hide Count, ScanFrom, Faithful;
    var r := ScanFrom(s.isr, 0, pri, sec, copies);
    ScanFaithful(s.isr, 0, pri, sec, copies, s.requests);
    forall t | 0 <= t < |s.requests|
      ensures Count(r.isr, t) + (if OneShotRequest(s.requests[t]) then Count(s.log + r.fired, t) else 0) == 1
    {
      ScanCounts(s.isr, 0, pri, sec, copies, s.requests, t);
      CountAppend(s.log, r.fired, t);
    }
    assert s.log + r.fired == s.delivered + (s.triggered + r.fired);
  }

  lemma StepKeeps(s: System, st: Step)
    requires Invariant(s)
    ensures Invariant(Next(s, st))
  {
    match st
    case Create(p, valid, memory) =>
      CreateKeeps(s, p);
    case Interrupt(pri, sec, copies) =>
      InterruptKeeps(s, pri, sec, copies);
    case GetNext =>
      hide Count, Faithful;
      if CounterShows(|s.triggered|) {
        assert s.delivered + s.triggered == s.delivered + [s.triggered[0]] + s.triggered[1..];
      }
  }

  lemma {:induction false} RunKeeps(steps: seq<Step>)
    ensures Invariant(Run(START, steps))
  {
    hide Invariant, Next;
    if steps == [] {
      StartIsFine();
    } else {
      RunKeeps(steps[..|steps| - 1]);
      StepKeeps(Run(START, steps[..|steps| - 1]), steps[|steps| - 1]);
    }
  }

  lemma StartIsFine()
    ensures Invariant(START)
  {
  }

  /** Over every run, each accepted one-shot request is in exactly one place: still waiting in the
      ISR queue, triggered and not yet fetched, or delivered once. Persistent ones stay registered. */
  lemma EachOneShotOnce(steps: seq<Step>, t: nat)
    requires t < |Run(START, steps).requests|
    ensures var s := Run(START, steps);
            if OneShotRequest(s.requests[t])
            then Count(s.isr, t) + Count(s.triggered, t) + Count(s.delivered, t) == 1
            else Count(s.isr, t) == 1
  {
    hide Run, Count;
    RunKeeps(steps);
    var s := Run(START, steps);
    CountAppend(s.delivered, s.triggered, t);
  }

  /** Events are delivered in the order in which they were triggered, and none is skipped. */
  lemma DeliveredInOrder(steps: seq<Step>)
    ensures var s := Run(START, steps); s.log == s.delivered + s.triggered
  {
    RunKeeps(steps);
  }

  /** Some interrupt of the run matched the event, and its registers are the event's result. */
  ghost predicate Caused(e: EventData, steps: seq<Step>) {
    exists i :: 0 <= i < |steps| && Causes(steps[i], e)
  }

  predicate Causes(st: Step, e: EventData) {
    st.Interrupt? && FiredBy(e, st.pri, st.sec)
  }

  predicate FiredBy(e: EventData, pri: Word, sec: Secondary) {
    Matches(e, pri) && e.result == [pri] + sec
  }

  predicate AllFiredBy(es: seq<EventData>, pri: Word, sec: Secondary) {
    forall i :: 0 <= i < |es| ==> FiredBy(es[i], pri, sec)
  }

  lemma {:induction false} FiredByScan(isr: seq<EventData>, k: nat, pri: Word, sec: Secondary, copies: nat -> bool)
    requires k <= |isr|
    ensures AllFiredBy(ScanFrom(isr, k, pri, sec, copies).fired, pri, sec)
    decreases |isr| - k
  {
    if k < |isr| {
      var e := Report(isr[k], pri, sec);
      if !Matches(isr[k], pri) {
        FiredByScan(isr, k + 1, pri, sec, copies);
      } else {
        assert FiredBy(e, pri, sec);
        if !OneShot(e) && copies(k) {
          FiredByScan(isr[k := e], k + 1, pri, sec, copies);
        }
      }
    }
  }

  lemma {:induction false} LogIsCaused(steps: seq<Step>, k: nat)
    requires k < |Run(START, steps).log|
    ensures Caused(Run(START, steps).log[k], steps)
  {
    hide ScanFrom, FiredBy, Run;
    RunStep(steps);
    var n := |steps| - 1;
    var before, st := steps[..n], steps[n];
    var s := Run(START, before);
    if k < |s.log| {
      LogIsCaused(before, k);
      var i :| 0 <= i < n && Causes(before[i], s.log[k]);
      assert Causes(steps[i], s.log[k]);
    } else {
      FiredByScan(s.isr, 0, st.pri, st.sec, st.copies);
      assert Causes(steps[n], Run(START, steps).log[k]);
    }
  }

  lemma RunStep(steps: seq<Step>)
    ensures steps == [] ==> Run(START, steps) == START
    ensures steps != [] ==> Run(START, steps) == Next(Run(START, steps[..|steps| - 1]), steps[|steps| - 1])
  {
    hide Next;
  }

  /** What a delivered event reports: the parameters it was requested with, the handle rejoined,
      an empty mask replaced by the full one, and the six registers of an interrupt of the run that
      the mask lets through. */
  lemma DeliveredAsRequested(steps: seq<Step>, i: nat)
    requires i < |Run(START, steps).delivered|
    ensures var s := Run(START, steps);
            var e := s.delivered[i];
            && e.tag < |s.requests|
            && var p := s.requests[e.tag];
               && |Delivered(e)| == 12
               && Delivered(e)[..6] == p[2 := if p[2] == 0 then 0xFFFF_FFFF else p[2]]
               && exists n :: && 0 <= n < |steps| && steps[n].Interrupt? && p[0] == 0x10
                              && ShareBit(if p[2] == 0 then 0xFFFF_FFFF else p[2], steps[n].pri)
                              && Delivered(e)[6..] == [steps[n].pri] + steps[n].sec
  {
    hide Run, Count, Caused, ShareBit;
    RunKeeps(steps);
    var s := Run(START, steps);
    var e := s.log[i];
    assert e == s.delivered[i] && Faithful(e, s.requests);
    RequestRoundTrip(e, s.requests);
    LogIsCaused(steps, i);
    CausedIsSix(e, steps);
    CausedByBits(e, s.requests, steps);
  }

  lemma CausedByBits(e: EventData, requests: seq<Request>, steps: seq<Step>)
    requires Caused(e, steps) && Faithful(e, requests)
    ensures var p := requests[e.tag];
            exists n :: && 0 <= n < |steps| && steps[n].Interrupt? && p[0] == 0x10
                        && ShareBit(if p[2] == 0 then 0xFFFF_FFFF else p[2], steps[n].pri)
                        && Delivered(e)[6..] == [steps[n].pri] + steps[n].sec
  {
    hide Matches, ShareBit, LowHalf, HighHalf;
    var n :| 0 <= n < |steps| && Causes(steps[n], e);
    MatchesByBits(e, steps[n].pri);
    assert Delivered(e)[6..] == e.result;
  }

  lemma CausedIsSix(e: EventData, steps: seq<Step>)
    requires Caused(e, steps)
    ensures |e.result| == 6
  {
    hide Matches;
    var i :| 0 <= i < |steps| && Causes(steps[i], e);
  }

  lemma RequestRoundTrip(e: EventData, requests: seq<Request>)
    requires Faithful(e, requests)
    ensures var p := requests[e.tag];
            Delivered(e)[..6] == p[2 := if p[2] == 0 then 0xFFFF_FFFF else p[2]]
  {
    hide LowHalf, HighHalf, JoinHalves;
    JoinSplit(requests[e.tag][5]);
  }

  /** What creation does: exactly a valid request of interrupt type with memory for it is registered,
      behind those before, and nothing else changes. */
  lemma CreationRegisters(s: System, p: Request, valid: bool, memory: bool)
    ensures var e := Next(s, Create(p, valid, memory));
            if valid && memory && p[0] == 0x10
            then && |e.isr| == |s.isr| + 1 && e.isr[..|s.isr|] == s.isr && e.requests == s.requests + [p]
                 && e.isr[|s.isr|].tag == |s.requests| && e.isr[|s.isr|].result == [0, 0, 0, 0, 0, 0]
                 && e.triggered == s.triggered && e.log == s.log && e.delivered == s.delivered
            else e == s
  {
  }

  // ----- One-shot events leave one at a time -----

  /** Two one-shot events that match the same interrupt: one pass triggers the first only. */
  lemma SecondOneShotWaits(p: Request, copies: nat -> bool)
    requires p == [ISR_INTERRUPT, 0, 1, 0, 0, 0]
    ensures var s := Run(START, [Create(p, true, true), Create(p, true, true), Interrupt(1, [0, 0, 0, 0, 0], copies)]);
            && s.triggered == [NewEvent(0, p).(result := [1, 0, 0, 0, 0, 0])]
            && s.isr == [NewEvent(1, p)] && Matches(s.isr[0], 1)
  {
    hide Run, NewEvent, Matches, ScanFrom;
    var c, i := Create(p, true, true), Interrupt(1, [0, 0, 0, 0, 0], copies);
    RunNone(START);
    RunLast(START, [c]);
    assert [c][..0] == [];
    assert Run(START, [c]) == START.(isr := [NewEvent(0, p)], requests := [p]);
    RunLast(START, [c, c]);
    assert [c, c][..1] == [c];
    var isr := [NewEvent(0, p), NewEvent(1, p)];
    assert Run(START, [c, c]) == START.(isr := isr, requests := [p, p]);
    RunLast(START, [c, c, i]);
    assert [c, c, i][..2] == [c, c];
    FirstIsTaken(isr, p, copies);
  }

  lemma FirstIsTaken(isr: seq<EventData>, p: Request, copies: nat -> bool)
    requires p == [ISR_INTERRUPT, 0, 1, 0, 0, 0] && isr == [NewEvent(0, p), NewEvent(1, p)]
    ensures Matches(isr[0], 1) && Matches(isr[1], 1)
    ensures ScanFrom(isr, 0, 1, [0, 0, 0, 0, 0], copies)
         == Scan([isr[1]], [isr[0].(result := [1, 0, 0, 0, 0, 0])])
  {
    hide LowHalf, HighHalf;
    var sec: seq<Word> := [0, 0, 0, 0, 0];
    var e := Report(isr[0], 1, sec);
    assert [1] + sec == [1, 0, 0, 0, 0, 0];
    assert Matches(isr[0], 1) && OneShot(e);
    assert RemoveAt(isr, 0) == [isr[1]];
    assert ScanFrom(isr, 0, 1, sec, copies) == Scan(RemoveAt(isr, 0), [e]);
  }

  /** The tags of the matching one-shot events, in order. */
  function OneShotTags(es: seq<EventData>, pri: Word): seq<nat> {
    if es == [] then []
    else (if Matches(es[0], pri) && OneShot(es[0]) then [es[0].tag] else []) + OneShotTags(es[1..], pri)
  }

  lemma {:induction false} TagsAppend(a: seq<EventData>, b: seq<EventData>, pri: Word)
    ensures OneShotTags(a + b, pri) == OneShotTags(a, pri) + OneShotTags(b, pri)
  {
    hide Matches, OneShot;
    if a == [] {
      assert a + b == b;
    } else {
      assert (a + b)[1..] == a[1..] + b;
      TagsAppend(a[1..], b, pri);
    }
  }

  lemma TagsSplit(es: seq<EventData>, k: nat, pri: Word)
    requires k < |es|
    ensures OneShotTags(es, pri) == OneShotTags(es[..k], pri) + OneShotTags([es[k]], pri) + OneShotTags(es[k + 1..], pri)
    ensures OneShotTags(es[..k + 1], pri) == OneShotTags(es[..k], pri) + OneShotTags([es[k]], pri)
  {
    hide OneShotTags;
    assert es == es[..k + 1] + es[k + 1..] && es[..k + 1] == es[..k] + [es[k]];
    TagsAppend(es[..k + 1], es[k + 1..], pri);
    TagsAppend(es[..k], [es[k]], pri);
  }

  lemma TagsOfOne(e: EventData, pri: Word)
    ensures OneShotTags([e], pri) == if Matches(e, pri) && OneShot(e) then [e.tag] else []
  {
    hide Matches, OneShot;
    assert [e][1..] == [];
  }

  lemma SameTags(e: EventData, pri: Word, sec: seq<Word>)
    ensures Matches(Report(e, pri, sec), pri) == Matches(e, pri) && OneShot(Report(e, pri, sec)) == OneShot(e)
    ensures Report(e, pri, sec).tag == e.tag
  {
    hide Report, Admits;
  }

  function Front(tags: seq<nat>, n: nat): seq<nat> {
    if n < |tags| then tags[..n] else tags
  }

  function Back(tags: seq<nat>, n: nat): seq<nat> {
    if n < |tags| then tags[n..] else []
  }

  ghost predicate AllCopies(copies: nat -> bool) {
    forall k :: copies(k)
  }

  /** Without a failed copy, a pass takes exactly the first matching one-shot event. */
  lemma {:induction false} PassTakesOne(isr: seq<EventData>, k: nat, pri: Word, sec: seq<Word>, copies: nat -> bool)
    requires k <= |isr| && AllCopies(copies) && OneShotTags(isr[..k], pri) == []
    ensures var r, tags := ScanFrom(isr, k, pri, sec, copies), OneShotTags(isr, pri);
            OneShotTags(r.isr, pri) == Back(tags, 1) && OneShotTags(r.fired, pri) == Front(tags, 1)
    decreases |isr| - k
  {
    if k == |isr| {
      assert isr[..k] == isr;
      return;
    }
    hide Matches, OneShot, Report, OneShotTags;
    var e := Report(isr[k], pri, sec);
    SameTags(isr[k], pri, sec);
    if !Matches(isr[k], pri) {
      OneOther(isr, k, isr[k], pri);
      assert isr[k := isr[k]] == isr;
      PassTakesOne(isr, k + 1, pri, sec, copies);
    } else if OneShot(e) {
      OneTaken(isr, k, pri);
      TagsOfOne(e, pri);
    } else {
      OneOther(isr, k, e, pri);
      PassTakesOne(isr[k := e], k + 1, pri, sec, copies);
      TagsOfOne(e, pri);
      TagsAppend([e], ScanFrom(isr[k := e], k + 1, pri, sec, copies).fired, pri);
    }
  }

  /** An event that is not a matching one-shot event, before and after it is written to. */
  lemma OneOther(isr: seq<EventData>, k: nat, e: EventData, pri: Word)
    requires k < |isr| && !(Matches(isr[k], pri) && OneShot(isr[k])) && !(Matches(e, pri) && OneShot(e))
    ensures OneShotTags(isr[k := e], pri) == OneShotTags(isr, pri)
    ensures OneShotTags(isr[k := e][..k + 1], pri) == OneShotTags(isr[..k], pri)
  {
    hide Matches, OneShot, OneShotTags;
    var next := isr[k := e];
    TagsSplit(isr, k, pri);
    TagsSplit(next, k, pri);
    TagsOfOne(isr[k], pri);
    TagsOfOne(e, pri);
    assert next[..k] == isr[..k] && next[k + 1..] == isr[k + 1..];
  }

  lemma OneTaken(isr: seq<EventData>, k: nat, pri: Word)
    requires k < |isr| && Matches(isr[k], pri) && OneShot(isr[k]) && OneShotTags(isr[..k], pri) == []
    ensures OneShotTags(isr, pri) == [isr[k].tag] + OneShotTags(RemoveAt(isr, k), pri)
  {
    hide Matches, OneShot, OneShotTags;
    TagsSplit(isr, k, pri);
    TagsOfOne(isr[k], pri);
    TagsAppend(isr[..k], isr[k + 1..], pri);
  }

  ghost predicate Passes(steps: seq<Step>, pri: Word) {
    forall i :: 0 <= i < |steps| ==> steps[i].Interrupt? && steps[i].pri == pri && AllCopies(steps[i].copies)
  }

  /** From any state, m interrupts with the same primary register and no failed copy trigger the
      first m of the one-shot events it matches, in order, or all of them if there are fewer. */
  lemma {:induction false} OneShotsDrain(s: System, steps: seq<Step>, pri: Word)
    requires Passes(steps, pri)
    ensures var e, tags := Run(s, steps), OneShotTags(s.isr, pri);
            && OneShotTags(e.isr, pri) == Back(tags, |steps|)
            && OneShotTags(e.log, pri) == OneShotTags(s.log, pri) + Front(tags, |steps|)
  {
    if steps == [] {
      return;
    }
    hide OneShotTags, ScanFrom, Matches, AllCopies, Run, Front, Back;
    var n := |steps| - 1;
    var before, st := steps[..n], steps[n];
    OneShotsDrain(s, before, pri);
    RunLast(s, steps);
    var m := Run(s, before);
    NoTags(m.isr, pri);
    PassTakesOne(m.isr, 0, pri, st.sec, st.copies);
    TagsAppend(m.log, ScanFrom(m.isr, 0, pri, st.sec, st.copies).fired, pri);
    OneMore(OneShotTags(s.log, pri), OneShotTags(s.isr, pri), n);
  }

  lemma OneMore(done: seq<nat>, tags: seq<nat>, n: nat)
    ensures Back(Back(tags, n), 1) == Back(tags, n + 1)
    ensures done + Front(tags, n) + Front(Back(tags, n), 1) == done + Front(tags, n + 1)
  {
    assert Front(tags, n) + Front(Back(tags, n), 1) == Front(tags, n + 1);
  }

  lemma NoTags(es: seq<EventData>, pri: Word)
    ensures OneShotTags(es[..0], pri) == []
  {
  }

  lemma RunNone(s: System)
    ensures Run(s, []) == s
  {
  }

  lemma RunLast(s: System, steps: seq<Step>)
    requires steps != []
    ensures Run(s, steps) == Next(Run(s, steps[..|steps| - 1]), steps[|steps| - 1])
  {
    hide Next;
  }

  // ----- The 16-bit counter -----

  /** GET_NEXT_EVENT delivers the oldest triggered event exactly when the counter is not zero;
      below 65536 pending events that is when there is one. */
  lemma GetNextDelivers(s: System)
    ensures CounterShows(|s.triggered|) <==> Next(s, GetNext) != s
    ensures |s.triggered| < 0x1_0000 ==> (CounterShows(|s.triggered|) <==> s.triggered != [])
    ensures CounterShows(|s.triggered|) ==>
              && s.triggered != []
              && Next(s, GetNext).delivered == s.delivered + [s.triggered[0]]
              && Next(s, GetNext).triggered == s.triggered[1..]
  {
    if CounterShows(|s.triggered|) {
      assert |Next(s, GetNext).triggered| < |s.triggered|;
    }
  }

  /** One persistent event and n interrupts. */
  function Flood(n: nat): seq<Step> {
    if n == 0 then [Create([ISR_INTERRUPT, 1, 0, 0, 0, 0], true, true)]
    else Flood(n - 1) + [Interrupt(1, [0, 0, 0, 0, 0], k => true)]
  }

  predicate Armed(isr: seq<EventData>) {
    |isr| == 1 && isr[0].kind == ISR_INTERRUPT && isr[0].persistent == 1 && isr[0].param1 == 0xFFFF_FFFF
  }

  lemma {:induction false} FloodFills(n: nat)
    ensures |Run(START, Flood(n)).triggered| == n && Armed(Run(START, Flood(n)).isr)
  {
    var f := Flood(n);
    if n == 0 {
      assert f[..0] == [];
    } else {
      FloodFills(n - 1);
      assert f[..|f| - 1] == Flood(n - 1);
      var s := Run(START, Flood(n - 1));
      FloodStep(s.isr);
    }
  }

  lemma FloodStep(isr: seq<EventData>)
    requires Armed(isr)
    ensures var r := ScanFrom(isr, 0, 1, [0, 0, 0, 0, 0], k => true); |r.fired| == 1 && Armed(r.isr)
  {
    assert Matches(isr[0], 1);
  }

  /** With 65536 events waiting, GET_NEXT_EVENT finds none. */
  lemma FloodHidesEvents()
    ensures var s := Run(START, Flood(0x1_0000)); |s.triggered| == 0x1_0000 && Next(s, GetNext) == s
  {
    hide Flood, Run;
    FloodFills(0x1_0000);
  }
}
