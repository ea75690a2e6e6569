/** The dynamic DNS update machine on values, and what holds at every round of every run
    (inadyn/dyndns.c:317-370, 421-514, 855-910 and 1039-1081). */
module DynDnsSpec {

  import opened Arithmetic

  const RC_OK := 0
  const RC_DYNDNS_RSP_NOTOK := 0x48

  /** An address as text; the empty one stands for none known yet. */
  type Address = string

  /** The text of an address that was found in an answer. */
  type FoundAddress = a: string | a != "" witness "1.0.0.0"

  // ----- The environment -----

  /** What the network and a server do with one update: set-up, transaction, the server's verdict,
      and the shutdown of the connection. */
  datatype Attempt = Attempt(setUp: int, transaction: int, accepts: bool, shutDown: int)

  /** One round: the answer of the IP server (an error code, or an address), the attempts that
      would be made, a forced update, and whether a stop command arrives afterwards. */
  datatype Round = Round(ipError: int, ip: FoundAddress, attempts: (nat, nat) -> Attempt, force: bool, stop: bool)

  // ----- The state -----

  /** Per server: stored address, its change flag, and per alias whether an update is pending.
      The last two fields are history: the address last accepted for each alias, and the number
      of accepted updates. */
  datatype State = State(
    addresses: seq<Address>, changed: seq<bool>, required: seq<seq<bool>>, times: int,
    accepted: seq<seq<Address>>, announcements: nat)

  predicate WellFormed(s: State) {
    && |s.addresses| == |s.changed| == |s.required| == |s.accepted| > 0
    && forall i :: 0 <= i < |s.required| ==> |s.required[i]| == |s.accepted[i]|
  }

  // ----- The steps of a round -----

  /** do_parse_my_ip_address, once an address was found. */
  function StoreAddress(s: State, ip: Address): State {
    s.(changed := seq(|s.addresses|, i requires 0 <= i < |s.addresses| => ip != s.addresses[i]),
       addresses := seq(|s.addresses|, i => ip))
  }

  function AllTrue(n: nat): (r: seq<bool>)
    ensures |r| == n
  {
    seq(n, j => true)
  }

  /** do_check_alias_update_table: only the change flag of server 0 is looked at. */
  function MarkAliases(s: State, force: bool, forcedTimes: int): State
    requires WellFormed(s)
  {
    if s.changed[0] || force || s.times > forcedTimes
    then s.(required := seq(|s.required|, i requires 0 <= i < |s.required| => AllTrue(|s.required[i]|)))
    else s
  }

  /** The aliases of one server while they are being updated. */
  datatype Table = Table(required: seq<bool>, accepted: seq<Address>, times: int, announcements: nat, rc: int)

  function TryAlias(t: Table, j: nat, ip: Address, a: Attempt): Table
    requires j < |t.required| == |t.accepted|
  {
    if a.setUp != RC_OK then t.(rc := a.setUp)
    else if a.transaction != RC_OK then t.(rc := a.transaction)
    else if a.accepts then
      Table(t.required[j := false], t.accepted[j := ip], 0, t.announcements + 1, a.shutDown)
    else t.(rc := RC_DYNDNS_RSP_NOTOK)
  }

  /** The inner loop of do_update_alias_table: it ends at the first failure. */
  function UpdateServer(t: Table, j: nat, i: nat, ip: Address, attempts: (nat, nat) -> Attempt): (r: Table)
    requires j <= |t.required| == |t.accepted|
    ensures |r.required| == |r.accepted| == |t.required|
    decreases |t.required| - j
  {
    if j == |t.required| then t
    else if !t.required[j] then UpdateServer(t, j + 1, i, ip, attempts)
    else
      var u := TryAlias(t, j, ip, attempts(i, j));
      if u.rc != RC_OK then u else UpdateServer(u, j + 1, i, ip, attempts)
  }

  datatype Outcome = Outcome(state: State, rc: int)

  function TableOf(o: Outcome, i: nat): Table
    requires WellFormed(o.state) && i < |o.state.required|
  {
    Table(o.state.required[i], o.state.accepted[i], o.state.times, o.state.announcements, o.rc)
  }

  function WithTable(o: Outcome, i: nat, t: Table): (r: Outcome)
    requires WellFormed(o.state) && i < |o.state.required|
    requires |t.required| == |t.accepted| == |o.state.required[i]|
    ensures WellFormed(r.state) && |r.state.required| == |o.state.required|
    ensures r.state.addresses == o.state.addresses && r.state.changed == o.state.changed
  {
    Outcome(o.state.(required := o.state.required[i := t.required], accepted := o.state.accepted[i := t.accepted],
                     times := t.times, announcements := t.announcements), t.rc)
  }

  /** The outer loop of do_update_alias_table: a failure at one server does not keep the next
      servers from being updated, and the last return code counts. */
  function UpdateFrom(o: Outcome, i: nat, attempts: (nat, nat) -> Attempt): (r: Outcome)
    requires WellFormed(o.state) && i <= |o.state.required|
    ensures WellFormed(r.state) && |r.state.required| == |o.state.required|
    ensures r.state.addresses == o.state.addresses && r.state.changed == o.state.changed
    decreases |o.state.required| - i
  {
    if i == |o.state.required| then o
    else
      var t := UpdateServer(TableOf(o, i), 0, i, o.state.addresses[i], attempts);
      UpdateFrom(WithTable(o, i, t), i + 1, attempts)
  }

  /** dyn_dns_update_ip */
  function UpdateIp(s: State, r: Round, forcedTimes: int): (o: Outcome)
    requires WellFormed(s)
    ensures WellFormed(o.state)
  {
    if r.ipError != RC_OK then Outcome(s, r.ipError)
    else UpdateFrom(Outcome(MarkAliases(StoreAddress(s, r.ip), r.force, forcedTimes), RC_OK), 0, r.attempts)
  }

  // ----- The main loop -----

  datatype Loop = Loop(state: State, iterations: nat, running: bool, rc: int)

  /** One turn of the loop of dyn_dns_main. */
  function Turn(l: Loop, r: Round, forcedTimes: int, total: int): (m: Loop)
    requires WellFormed(l.state)
    ensures WellFormed(m.state)
  {
    if !l.running then l
    else
      var o := UpdateIp(l.state, r, forcedTimes);
      if o.rc == RC_DYNDNS_RSP_NOTOK then Loop(o.state, l.iterations, false, o.rc)
      else
        var n := if o.rc == RC_OK then l.iterations + 1 else l.iterations;
        if n >= total && total != 0 then Loop(o.state, n, false, o.rc)
        else if r.stop then Loop(o.state, n, false, RC_OK)
        else if o.rc == RC_OK then Loop(o.state.(times := o.state.times + 1), n, true, o.rc)
        else Loop(o.state, n, true, o.rc)
  }

  function Run(l: Loop, rounds: seq<Round>, forcedTimes: int, total: int): (m: Loop)
    requires WellFormed(l.state)
    ensures WellFormed(m.state)
  {
    if rounds == [] then l
    else Turn(Run(l, rounds[..|rounds| - 1], forcedTimes, total), rounds[|rounds| - 1], forcedTimes, total)
  }

  /** The state after configuration: no address known, no update counted, nothing announced. */
  predicate Initial(s: State) {
    && WellFormed(s)
    && (forall i :: 0 <= i < |s.addresses| ==> s.addresses[i] == "")
    && s.times == 0 && s.announcements == 0
  }

  // ----- What an update of the tables keeps and what its return code says -----

  predicate TableAnnounced(required: seq<bool>, accepted: seq<Address>, ip: Address)
    requires |required| == |accepted|
  {
    forall j :: 0 <= j < |required| && !required[j] ==> accepted[j] == ip
  }

  predicate NoneRequired(required: seq<bool>, j: nat) {
    forall k :: j <= k < |required| ==> !required[k]
  }

  /** Bookkeeping of one step of the updates: the counter restarts exactly with an accepted update,
      and a good return code without one means that it was good before. */
  predicate Accounted(times: int, announcements: nat, rc: int, times': int, announcements': nat, rc': int) {
    && announcements <= announcements'
    && times' == (if announcements < announcements' then 0 else times)
    && (rc' == RC_OK && announcements' == announcements ==> rc == RC_OK)
  }

  lemma {:induction false} UpdateServerKeeps(t: Table, j: nat, i: nat, ip: Address, attempts: (nat, nat) -> Attempt)
    requires j <= |t.required| == |t.accepted|
    ensures var r := UpdateServer(t, j, i, ip, attempts);
            && (TableAnnounced(t.required, t.accepted, ip) ==> TableAnnounced(r.required, r.accepted, ip))
            && Accounted(t.times, t.announcements, t.rc, r.times, r.announcements, r.rc)
            && (r.rc == RC_OK && r.announcements == t.announcements ==> NoneRequired(t.required, j))
    decreases |t.required| - j
  {
    if j < |t.required| {
      if !t.required[j] {
        UpdateServerKeeps(t, j + 1, i, ip, attempts);
      } else {
        var u := TryAlias(t, j, ip, attempts(i, j));
        if u.rc == RC_OK {
          UpdateServerKeeps(u, j + 1, i, ip, attempts);
        }
      }
    }
  }

  // ----- What the return code of an update of the tables says -----

  /** The server took the update. */
  predicate Taken(a: Attempt) {
    a.setUp == RC_OK && a.transaction == RC_OK && a.accepts
  }

  /** The return code of one attempt: that of its first step that fails. */
  function AttemptCode(a: Attempt): int {
    if a.setUp != RC_OK then a.setUp
    else if a.transaction != RC_OK then a.transaction
    else if a.accepts then a.shutDown
    else RC_DYNDNS_RSP_NOTOK
  }

  lemma TryAliasIs(t: Table, j: nat, ip: Address, a: Attempt)
    requires j < |t.required| == |t.accepted|
    ensures var u := TryAlias(t, j, ip, a);
            && u.rc == AttemptCode(a)
            && u.required == (if Taken(a) then t.required[j := false] else t.required)
            && u.accepted == (if Taken(a) then t.accepted[j := ip] else t.accepted)
  {
  }

  /** The code of the first pending alias from j on whose attempt fails. */
  function ServerCode(required: seq<bool>, j: nat, i: nat, attempts: (nat, nat) -> Attempt): int
    requires j <= |required|
    decreases |required| - j
  {
    if j == |required| then RC_OK
    else if required[j] && AttemptCode(attempts(i, j)) != RC_OK then AttemptCode(attempts(i, j))
    else ServerCode(required, j + 1, i, attempts)
  }

  lemma {:induction false} ServerCodeIsGood(required: seq<bool>, j: nat, i: nat, attempts: (nat, nat) -> Attempt)
    requires j <= |required|
    ensures ServerCode(required, j, i, attempts) == RC_OK <==>
            forall k :: j <= k < |required| && required[k] ==> AttemptCode(attempts(i, k)) == RC_OK
    decreases |required| - j
  {
    hide AttemptCode;
    if j < |required| {
      ServerCodeIsGood(required, j + 1, i, attempts);
    }
  }

  /** Every pending alias from j on is taken, and only behind the last of them may the shutdown of
      the connection fail. */
  predicate Clears(required: seq<bool>, j: nat, i: nat, attempts: (nat, nat) -> Attempt) {
    forall k :: j <= k < |required| && required[k] ==>
      && Taken(attempts(i, k))
      && (attempts(i, k).shutDown == RC_OK || NoneRequired(required, k + 1))
  }

  lemma {:induction false} ServerCodeSuffix(a: seq<bool>, b: seq<bool>, j: nat, i: nat, attempts: (nat, nat) -> Attempt)
    requires |a| == |b| && j <= |a| && forall k :: j <= k < |a| ==> a[k] == b[k]
    ensures ServerCode(a, j, i, attempts) == ServerCode(b, j, i, attempts)
    ensures NoneRequired(a, j) == NoneRequired(b, j)
    ensures Clears(a, j, i, attempts) == Clears(b, j, i, attempts)
    decreases |a| - j
  {
    hide AttemptCode, Taken;
    if j < |a| {
      ServerCodeSuffix(a, b, j + 1, i, attempts);
    }
  }

  /** One turn of the inner loop, at an alias that is not pending and at one that is. */
  lemma SkippedTurn(t: Table, j: nat, i: nat, ip: Address, attempts: (nat, nat) -> Attempt)
    requires j < |t.required| == |t.accepted| && !t.required[j]
    ensures UpdateServer(t, j, i, ip, attempts) == UpdateServer(t, j + 1, i, ip, attempts)
  {
  }

  lemma PendingTurn(t: Table, j: nat, i: nat, ip: Address, attempts: (nat, nat) -> Attempt)
    requires j < |t.required| == |t.accepted| && t.required[j]
    ensures var u := TryAlias(t, j, ip, attempts(i, j));
            && |u.required| == |t.required| == |u.accepted|
            && (forall k :: 0 <= k < |t.required| && k != j ==> u.required[k] == t.required[k])
            && u.required[j] == !Taken(attempts(i, j))
            && u.accepted == (if Taken(attempts(i, j)) then t.accepted[j := ip] else t.accepted)
            && u.rc == AttemptCode(attempts(i, j))
            && UpdateServer(t, j, i, ip, attempts)
               == if u.rc != RC_OK then u else UpdateServer(u, j + 1, i, ip, attempts)
  {
    hide Taken, AttemptCode;
    TryAliasIs(t, j, ip, attempts(i, j));
  }

  /** Aliases in front of j are left alone. */
  lemma {:induction false} UpdateServerBehind(t: Table, k: nat, j: nat, i: nat, ip: Address,
                                              attempts: (nat, nat) -> Attempt)
    requires k < j <= |t.required| == |t.accepted|
    ensures UpdateServer(t, j, i, ip, attempts).required[k] == t.required[k]
    ensures UpdateServer(t, j, i, ip, attempts).accepted[k] == t.accepted[k]
    decreases |t.required| - j
  {
    if j < |t.required| {
      hide UpdateServer, TryAlias, AttemptCode, Taken;
      if !t.required[j] {
        SkippedTurn(t, j, i, ip, attempts);
        UpdateServerBehind(t, k, j + 1, i, ip, attempts);
      } else {
        PendingTurn(t, j, i, ip, attempts);
        var u := TryAlias(t, j, ip, attempts(i, j));
        if u.rc == RC_OK {
          UpdateServerBehind(u, k, j + 1, i, ip, attempts);
        }
      }
    }
  }

  /** The code after the inner loop of do_update_alias_table. */
  lemma {:induction false} UpdateServerCode(t: Table, j: nat, i: nat, ip: Address, attempts: (nat, nat) -> Attempt)
    requires j <= |t.required| == |t.accepted|
    ensures UpdateServer(t, j, i, ip, attempts).rc
         == if NoneRequired(t.required, j) then t.rc else ServerCode(t.required, j, i, attempts)
    decreases |t.required| - j
  {
    if j == |t.required| {
      return;
    }
    hide UpdateServer, TryAlias, AttemptCode, Taken, NoneRequired, Clears, ServerCode;
    PendingStep(t.required, j, i, attempts);
    if !t.required[j] {
      SkippedTurn(t, j, i, ip, attempts);
      UpdateServerCode(t, j + 1, i, ip, attempts);
    } else {
      PendingTurn(t, j, i, ip, attempts);
      var u := TryAlias(t, j, ip, attempts(i, j));
      if u.rc == RC_OK {
        UpdateServerCode(u, j + 1, i, ip, attempts);
        ServerCodeSuffix(u.required, t.required, j + 1, i, attempts);
      }
    }
  }

  /** What the inner loop leaves pending. */
  lemma {:induction false} UpdateServerLeaves(t: Table, j: nat, i: nat, ip: Address, attempts: (nat, nat) -> Attempt)
    requires j <= |t.required| == |t.accepted|
    ensures NoneRequired(UpdateServer(t, j, i, ip, attempts).required, j) <==> Clears(t.required, j, i, attempts)
    decreases |t.required| - j
  {
    if j == |t.required| {
      return;
    }
    hide UpdateServer, TryAlias, AttemptCode, Taken, NoneRequired, Clears, ServerCode;
    var r := UpdateServer(t, j, i, ip, attempts);
    PendingStep(t.required, j, i, attempts);
    PendingStep(r.required, j, i, attempts);
    if !t.required[j] {
      SkippedTurn(t, j, i, ip, attempts);
      UpdateServerLeaves(t, j + 1, i, ip, attempts);
      UpdateServerBehind(t, j, j + 1, i, ip, attempts);
    } else {
      PendingTurn(t, j, i, ip, attempts);
      CodeOfTaken(attempts(i, j));
      var u := TryAlias(t, j, ip, attempts(i, j));
      ServerCodeSuffix(u.required, t.required, j + 1, i, attempts);
      if u.rc == RC_OK {
        UpdateServerLeaves(u, j + 1, i, ip, attempts);
        UpdateServerBehind(u, j, j + 1, i, ip, attempts);
      }
    }
  }

  lemma PendingStep(required: seq<bool>, j: nat, i: nat, attempts: (nat, nat) -> Attempt)
    requires j < |required|
    ensures NoneRequired(required, j) <==> !required[j] && NoneRequired(required, j + 1)
    ensures Clears(required, j, i, attempts) <==>
            && Clears(required, j + 1, i, attempts)
            && (required[j] ==> && Taken(attempts(i, j))
                                && (attempts(i, j).shutDown == RC_OK || NoneRequired(required, j + 1)))
    ensures NoneRequired(required, j + 1) ==>
              Clears(required, j + 1, i, attempts) && ServerCode(required, j + 1, i, attempts) == RC_OK
    ensures ServerCode(required, j, i, attempts)
         == if required[j] && AttemptCode(attempts(i, j)) != RC_OK then AttemptCode(attempts(i, j))
            else ServerCode(required, j + 1, i, attempts)
  {
    hide Taken, AttemptCode;
    ServerCodeIsGood(required, j + 1, i, attempts);
  }

  lemma CodeOfTaken(a: Attempt)
    ensures AttemptCode(a) == RC_OK <==> Taken(a) && a.shutDown == RC_OK
  {
  }

  /** Every pending alias from j up to k has a good attempt. */
  predicate GoodUpTo(required: seq<bool>, j: nat, k: nat, i: nat, attempts: (nat, nat) -> Attempt)
    requires k <= |required|
  {
    forall m :: j <= m < k && required[m] ==> AttemptCode(attempts(i, m)) == RC_OK
  }

  /** What becomes of one alias: its pending mark goes exactly if its attempt is taken and every
      pending alias before it at its server has a good attempt. Then, and only then, it is
      accepted under the address of the server. */
  lemma {:induction false} AliasUpdated(t: Table, j: nat, k: nat, i: nat, ip: Address, attempts: (nat, nat) -> Attempt)
    requires j <= k < |t.required| == |t.accepted|
    ensures var r := UpdateServer(t, j, i, ip, attempts);
            var done := t.required[k] && Taken(attempts(i, k)) && GoodUpTo(t.required, j, k, i, attempts);
            && r.required[k] == (t.required[k] && !done)
            && r.accepted[k] == (if done then ip else t.accepted[k])
    decreases |t.required| - j
  {
    hide UpdateServer, TryAlias, AttemptCode, Taken;
    if !t.required[j] {
      SkippedTurn(t, j, i, ip, attempts);
      if j < k {
        AliasUpdated(t, j + 1, k, i, ip, attempts);
      } else {
        UpdateServerBehind(t, k, j + 1, i, ip, attempts);
      }
    } else {
      PendingTurn(t, j, i, ip, attempts);
      CodeOfTaken(attempts(i, j));
      var u := TryAlias(t, j, ip, attempts(i, j));
      if u.rc == RC_OK {
        if j < k {
          AliasUpdated(u, j + 1, k, i, ip, attempts);
        } else {
          UpdateServerBehind(u, k, j + 1, i, ip, attempts);
        }
      }
    }
  }

  /** No pending alias is left exactly if the inner loop of the server ends with a good code, or if
      the only thing to fail is the shutdown behind its last pending alias. */
  lemma ClearsExactly(required: seq<bool>, i: nat, attempts: (nat, nat) -> Attempt)
    ensures Clears(required, 0, i, attempts) <==>
            || ServerCode(required, 0, i, attempts) == RC_OK
            || exists k :: && 0 <= k < |required| && required[k] && NoneRequired(required, k + 1)
                           && Taken(attempts(i, k)) && attempts(i, k).shutDown != RC_OK
                           && forall m :: 0 <= m < k && required[m] ==> AttemptCode(attempts(i, m)) == RC_OK
  {
    hide Taken, AttemptCode;
    ServerCodeIsGood(required, 0, i, attempts);
    forall k | 0 <= k < |required|
      ensures AttemptCode(attempts(i, k)) == RC_OK <==> Taken(attempts(i, k)) && attempts(i, k).shutDown == RC_OK
    {
      CodeOfTaken(attempts(i, k));
    }
  }

  /** The last server from i on with a pending alias, or their number if there is none. */
  function LastPending(required: seq<seq<bool>>, i: nat): (l: nat)
    requires i <= |required|
    ensures i <= l <= |required|
    ensures l < |required| ==> !NoneRequired(required[l], 0)
    ensures forall k :: i <= k < |required| && (k > l || l == |required|) ==> NoneRequired(required[k], 0)
    decreases |required| - i
  {
    if i == |required| then i
    else
      var l := LastPending(required, i + 1);
      if l < |required| || NoneRequired(required[i], 0) then l else i
  }

  lemma {:induction false} LastPendingSuffix(a: seq<seq<bool>>, b: seq<seq<bool>>, i: nat)
    requires |a| == |b| && i <= |a| && forall k :: i <= k < |a| ==> a[k] == b[k]
    ensures LastPending(a, i) == LastPending(b, i)
    decreases |a| - i
  {
    hide NoneRequired;
    if i < |a| {
      LastPendingSuffix(a, b, i + 1);
    }
  }

  /** The return code of do_update_alias_table is that of the last server with a pending alias. */
  lemma {:induction false} UpdateFromCode(o: Outcome, i: nat, attempts: (nat, nat) -> Attempt)
    requires WellFormed(o.state) && i <= |o.state.required|
    ensures var l := LastPending(o.state.required, i);
            UpdateFrom(o, i, attempts).rc
            == if l == |o.state.required| then o.rc else ServerCode(o.state.required[l], 0, l, attempts)
    decreases |o.state.required| - i
  {
    hide UpdateServer, NoneRequired, ServerCode;
    if i < |o.state.required| {
      var t := UpdateServer(TableOf(o, i), 0, i, o.state.addresses[i], attempts);
      UpdateServerCode(TableOf(o, i), 0, i, o.state.addresses[i], attempts);
      var p := WithTable(o, i, t);
      UpdateFromCode(p, i + 1, attempts);
      LastPendingSuffix(p.state.required, o.state.required, i + 1);
    }
  }

  /** What is left pending is decided server by server. */
  lemma {:induction false} UpdateFromLeaves(o: Outcome, i: nat, attempts: (nat, nat) -> Attempt)
    requires WellFormed(o.state) && i <= |o.state.required|
    ensures var r := UpdateFrom(o, i, attempts);
            && (forall k :: i <= k < |o.state.required| ==>
                  (NoneRequired(r.state.required[k], 0) <==> Clears(o.state.required[k], 0, k, attempts)))
            && (forall k :: 0 <= k < i ==> r.state.required[k] == o.state.required[k])
            && (forall k :: 0 <= k < i ==> r.state.accepted[k] == o.state.accepted[k])
    decreases |o.state.required| - i
  {
    hide UpdateServer, NoneRequired, Clears;
    if i < |o.state.required| {
      var t := UpdateServer(TableOf(o, i), 0, i, o.state.addresses[i], attempts);
      UpdateServerLeaves(TableOf(o, i), 0, i, o.state.addresses[i], attempts);
      UpdateFromLeaves(WithTable(o, i, t), i + 1, attempts);
    }
  }

  predicate NothingPending(s: State) {
    forall i :: 0 <= i < |s.required| ==> NoneRequired(s.required[i], 0)
  }

  /** What RC_OK from do_update_alias_table means: every attempt at the last server with a pending
      alias was good. It means that nothing is left pending exactly if every other server clears
      its aliases as well. */
  lemma GoodCodeMeans(s: State, attempts: (nat, nat) -> Attempt)
    requires WellFormed(s)
    ensures var r, l := UpdateFrom(Outcome(s, RC_OK), 0, attempts), LastPending(s.required, 0);
            && (r.rc == RC_OK <==>
                  l == |s.required| ||
                  forall j :: 0 <= j < |s.required[l]| && s.required[l][j] ==> AttemptCode(attempts(l, j)) == RC_OK)
            && (NothingPending(r.state) <==>
                  forall i :: 0 <= i < |s.required| ==> Clears(s.required[i], 0, i, attempts))
            && (r.rc == RC_OK ==>
                  (NothingPending(r.state) <==>
                     forall i :: 0 <= i < l && i < |s.required| ==> Clears(s.required[i], 0, i, attempts)))
  {
    hide UpdateFrom, NoneRequired, AttemptCode, Clears, ServerCode;
    var l := LastPending(s.required, 0);
    UpdateFromCode(Outcome(s, RC_OK), 0, attempts);
    UpdateFromLeaves(Outcome(s, RC_OK), 0, attempts);
    if l < |s.required| {
      ServerCodeIsGood(s.required[l], 0, l, attempts);
      ClearsExactly(s.required[l], l, attempts);
    }
    forall i | l < i < |s.required| ensures Clears(s.required[i], 0, i, attempts) {
      NonePendingClears(s.required[i], i, attempts);
    }
  }

  lemma NonePendingClears(required: seq<bool>, i: nat, attempts: (nat, nat) -> Attempt)
    requires NoneRequired(required, 0)
    ensures Clears(required, 0, i, attempts)
  {
    hide Taken;
  }

  /** Two servers with a pending alias each: the first one rejects, the second one accepts. The
      code is good, and the first alias is still pending. */
  lemma RejectionHidden(s: State, attempts: (nat, nat) -> Attempt)
    requires WellFormed(s) && s.required == [[true], [true]]
    requires attempts(0, 0) == Attempt(RC_OK, RC_OK, false, RC_OK)
    requires attempts(1, 0) == Attempt(RC_OK, RC_OK, true, RC_OK)
    ensures var r := UpdateFrom(Outcome(s, RC_OK), 0, attempts);
            r.rc == RC_OK && !NoneRequired(r.state.required[0], 0) && NoneRequired(r.state.required[1], 0)
  {
    hide UpdateFrom;
    UpdateFromCode(Outcome(s, RC_OK), 0, attempts);
    UpdateFromLeaves(Outcome(s, RC_OK), 0, attempts);
    assert s.required[0][0] && s.required[1][0];
    assert LastPending(s.required, 0) == 1;
    ServerCodeIsGood(s.required[1], 0, 1, attempts);
  }

  /** All servers hold the same address: the change flag of server 0 speaks for all. */
  predicate Consistent(s: State) {
    WellFormed(s) && forall i :: 0 <= i < |s.addresses| ==> s.addresses[i] == s.addresses[0]
  }

  /** Every alias that is not waiting for an update was last accepted under the current address. */
  predicate Announced(s: State)
    requires WellFormed(s)
  {
    s.addresses[0] != "" ==>
      forall i :: 0 <= i < |s.required| ==> TableAnnounced(s.required[i], s.accepted[i], s.addresses[i])
  }

  lemma {:induction false} UpdateFromKeeps(o: Outcome, i: nat, attempts: (nat, nat) -> Attempt)
    requires WellFormed(o.state) && i <= |o.state.required|
    ensures var r := UpdateFrom(o, i, attempts);
            && (Announced(o.state) ==> Announced(r.state))
            && Accounted(o.state.times, o.state.announcements, o.rc, r.state.times, r.state.announcements, r.rc)
            && (r.rc == RC_OK && r.state.announcements == o.state.announcements ==>
                  forall k :: i <= k < |o.state.required| ==> NoneRequired(o.state.required[k], 0))
    decreases |o.state.required| - i
  {
    hide UpdateServer, NoneRequired;
    if i < |o.state.required| {
      var t := UpdateServer(TableOf(o, i), 0, i, o.state.addresses[i], attempts);
      UpdateServerKeeps(TableOf(o, i), 0, i, o.state.addresses[i], attempts);
      var p := WithTable(o, i, t);
      UpdateFromKeeps(p, i + 1, attempts);
      forall k | i < k < |o.state.required|
        ensures p.state.required[k] == o.state.required[k]
      {
      }
    }
  }

  lemma MarkingKeeps(s: State, ip: FoundAddress, force: bool, forcedTimes: int)
    requires Consistent(s) && Announced(s)
    ensures var m := MarkAliases(StoreAddress(s, ip), force, forcedTimes);
            && Consistent(m) && Announced(m) && m.addresses[0] == ip
            && m.times == s.times && m.announcements == s.announcements
            && (s.times > forcedTimes ==>
                  forall i :: 0 <= i < |m.required| ==> m.required[i] == AllTrue(|s.required[i]|))
  {
    var n := StoreAddress(s, ip);
    var m := MarkAliases(n, force, forcedTimes);
    if n.changed[0] || force || s.times > forcedTimes {
      forall i | 0 <= i < |m.required|
        ensures TableAnnounced(m.required[i], m.accepted[i], m.addresses[i])
      {
        assert m.required[i] == AllTrue(|s.required[i]|);
      }
    } else {
      assert ip == s.addresses[0];
      forall i | 0 <= i < |s.addresses|
        ensures n.addresses[i] == s.addresses[i]
      {
      }
    }
  }

  /** Server 0 has an alias. */
  predicate HasAlias(s: State)
    requires WellFormed(s)
  {
    |s.required[0]| > 0
  }

  lemma {:induction false} UpdateFromShape(o: Outcome, i: nat, attempts: (nat, nat) -> Attempt)
    requires WellFormed(o.state) && i <= |o.state.required|
    ensures forall k :: 0 <= k < |o.state.required| ==>
              |UpdateFrom(o, i, attempts).state.required[k]| == |o.state.required[k]|
    decreases |o.state.required| - i
  {
    if i < |o.state.required| {
      var t := UpdateServer(TableOf(o, i), 0, i, o.state.addresses[i], attempts);
      UpdateFromShape(WithTable(o, i, t), i + 1, attempts);
    }
  }

  /** What a round of dyn_dns_update_ip keeps, and what it means when it succeeds without any
      accepted update: the forced refresh was not due. */
  lemma RoundKeeps(s: State, r: Round, forcedTimes: int)
    requires Consistent(s) && Announced(s)
    ensures var o := UpdateIp(s, r, forcedTimes);
            && Consistent(o.state) && Announced(o.state) && HasAlias(o.state) == HasAlias(s)
            && s.announcements <= o.state.announcements
            && o.state.times == (if s.announcements < o.state.announcements then 0 else s.times)
            && (HasAlias(s) && o.rc == RC_OK && o.state.announcements == s.announcements ==> s.times <= forcedTimes)
  {
    hide UpdateFrom, TableAnnounced;
    if r.ipError == RC_OK {
      var m := MarkAliases(StoreAddress(s, r.ip), r.force, forcedTimes);
      MarkingKeeps(s, r.ip, r.force, forcedTimes);
      UpdateFromKeeps(Outcome(m, RC_OK), 0, r.attempts);
      UpdateFromShape(Outcome(m, RC_OK), 0, r.attempts);
      if s.times > forcedTimes && HasAlias(s) {
        assert m.required[0][0];
      }
    }
  }

  /** A round ends the main loop with the rejection code exactly if that is the code of the last
      server with a pending alias, or of the search for the address. Rejections by earlier servers
      are overwritten. */
  lemma RejectionStops(l: Loop, r: Round, forcedTimes: int, total: int)
    requires WellFormed(l.state) && l.running
    ensures var marked := MarkAliases(StoreAddress(l.state, r.ip), r.force, forcedTimes).required;
            var last := LastPending(marked, 0);
            Turn(l, r, forcedTimes, total).rc == RC_DYNDNS_RSP_NOTOK <==>
            if r.ipError != RC_OK then r.ipError == RC_DYNDNS_RSP_NOTOK
            else last < |marked| && ServerCode(marked[last], 0, last, r.attempts) == RC_DYNDNS_RSP_NOTOK
    ensures Turn(l, r, forcedTimes, total).rc == RC_DYNDNS_RSP_NOTOK ==> !Turn(l, r, forcedTimes, total).running
  {
    hide UpdateFrom, StoreAddress, MarkAliases, ServerCode, NoneRequired;
    MarkedWellFormed(l.state, r.ip, r.force, forcedTimes);
    var m := MarkAliases(StoreAddress(l.state, r.ip), r.force, forcedTimes);
    UpdateFromCode(Outcome(m, RC_OK), 0, r.attempts);
  }

  /** The same in the main loop: with such answers it goes on as if all were well. */
  lemma RejectionGoesOn(l: Loop, r: Round, forcedTimes: int)
    requires WellFormed(l.state) && l.running && r.ipError == RC_OK && !r.stop
    requires l.state.required == [[true], [true]]
    requires r.attempts(0, 0) == Attempt(RC_OK, RC_OK, false, RC_OK)
    requires r.attempts(1, 0) == Attempt(RC_OK, RC_OK, true, RC_OK)
    ensures var m := Turn(l, r, forcedTimes, 0);
            m.running && m.rc == RC_OK && !NoneRequired(m.state.required[0], 0)
  {
    hide UpdateFrom, NoneRequired;
    MarkedWellFormed(l.state, r.ip, r.force, forcedTimes);
    var m := MarkAliases(StoreAddress(l.state, r.ip), r.force, forcedTimes);
    AllPendingStays(StoreAddress(l.state, r.ip), r.force, forcedTimes);
    RejectionHidden(m, r.attempts);
  }

  lemma AllPendingStays(s: State, force: bool, forcedTimes: int)
    requires WellFormed(s) && s.required == [[true], [true]]
    ensures MarkAliases(s, force, forcedTimes).required == [[true], [true]]
  {
    assert AllTrue(1) == [true];
  }

  lemma MarkedWellFormed(s: State, ip: Address, force: bool, forcedTimes: int)
    requires WellFormed(s)
    ensures WellFormed(StoreAddress(s, ip))
    ensures WellFormed(MarkAliases(StoreAddress(s, ip), force, forcedTimes))
  {
  }

  // ----- One alias over the rounds -----

  /** The update of alias k of server a succeeds. */
  predicate Succeeds(required: seq<seq<bool>>, a: nat, k: nat, attempts: (nat, nat) -> Attempt)
    requires a < |required| && k < |required[a]|
  {
    required[a][k] && Taken(attempts(a, k)) && GoodUpTo(required[a], 0, k, a, attempts)
  }

  /** do_update_alias_table, seen from one alias: other servers do not matter. */
  lemma {:induction false} AliasInTable(o: Outcome, i: nat, a: nat, k: nat, attempts: (nat, nat) -> Attempt)
    requires WellFormed(o.state) && i <= a < |o.state.required| && k < |o.state.required[a]|
    ensures var r := UpdateFrom(o, i, attempts).state;
            && |r.required[a]| == |o.state.required[a]| == |r.accepted[a]|
            && r.required[a][k] == (o.state.required[a][k] && !Succeeds(o.state.required, a, k, attempts))
            && r.accepted[a][k] == (if Succeeds(o.state.required, a, k, attempts) then o.state.addresses[a]
                                    else o.state.accepted[a][k])
    decreases |o.state.required| - i
  {
    hide UpdateServer, GoodUpTo, Taken, NoneRequired, Clears;
    var t := UpdateServer(TableOf(o, i), 0, i, o.state.addresses[i], attempts);
    var p := WithTable(o, i, t);
    if i < a {
      AliasInTable(p, i + 1, a, k, attempts);
    } else {
      AliasUpdated(TableOf(o, i), 0, k, i, o.state.addresses[i], attempts);
      UpdateFromLeaves(p, i + 1, attempts);
    }
  }

  lemma MarkingOnlyAdds(s: State, ip: Address, force: bool, forcedTimes: int)
    requires WellFormed(s)
    ensures var m := MarkAliases(StoreAddress(s, ip), force, forcedTimes);
            && WellFormed(StoreAddress(s, ip)) && WellFormed(m) && |m.required| == |s.required|
            && (forall i :: 0 <= i < |s.required| ==>
                  && |m.required[i]| == |s.required[i]|
                  && forall j :: 0 <= j < |s.required[i]| && s.required[i][j] ==> m.required[i][j])
            && m.accepted == s.accepted
  {
  }

  /** A round in which a pending alias b fails, seen from an alias k behind it at the same server. */
  lemma BlockedRound(s: State, r: Round, forcedTimes: int, a: nat, b: nat, k: nat)
    requires WellFormed(s) && a < |s.required| && b <= k < |s.required[a]|
    requires s.required[a][b] && !Taken(r.attempts(a, b))
    ensures var e := UpdateIp(s, r, forcedTimes).state;
            && |e.required| == |s.required| && |e.required[a]| == |s.required[a]|
            && e.required[a][b] && (s.required[a][k] ==> e.required[a][k])
            && e.accepted[a][k] == s.accepted[a][k]
  {
    hide UpdateFrom, Taken, StoreAddress, MarkAliases;
    if r.ipError == RC_OK {
      MarkingOnlyAdds(s, r.ip, r.force, forcedTimes);
      var m := MarkAliases(StoreAddress(s, r.ip), r.force, forcedTimes);
      AliasInTable(Outcome(m, RC_OK), 0, a, b, r.attempts);
      AliasInTable(Outcome(m, RC_OK), 0, a, k, r.attempts);
      CodeOfTaken(r.attempts(a, b));
    }
  }

  /** A pending alias that fails in every round keeps all pending aliases behind it at its server
      from ever being announced. */
  lemma {:induction false} BlockedForever(l: Loop, rounds: seq<Round>, forcedTimes: int, total: int,
                                          a: nat, b: nat, k: nat)
    requires WellFormed(l.state) && a < |l.state.required| && b <= k < |l.state.required[a]|
    requires l.state.required[a][b]
    requires forall i :: 0 <= i < |rounds| ==> !Taken(rounds[i].attempts(a, b))
    ensures var e := Run(l, rounds, forcedTimes, total).state;
            && |e.required| == |l.state.required| && |e.required[a]| == |l.state.required[a]|
            && e.required[a][b] && (l.state.required[a][k] ==> e.required[a][k])
            && e.accepted[a][k] == l.state.accepted[a][k]
  {
    if rounds != [] {
      hide Run, Turn, Taken;
      var n := |rounds| - 1;
      assert forall i :: 0 <= i < n ==> rounds[..n][i] == rounds[i];
      BlockedForever(l, rounds[..n], forcedTimes, total, a, b, k);
      RunTurn(l, rounds, forcedTimes, total);
      BlockedTurn(Run(l, rounds[..n], forcedTimes, total), rounds[n], forcedTimes, total, a, b, k);
    } else {
      RunNothing(l, forcedTimes, total);
    }
  }

  lemma RunNothing(l: Loop, forcedTimes: int, total: int)
    requires WellFormed(l.state)
    ensures Run(l, [], forcedTimes, total) == l
  {
  }

  lemma BlockedTurn(l: Loop, r: Round, forcedTimes: int, total: int, a: nat, b: nat, k: nat)
    requires WellFormed(l.state) && a < |l.state.required| && b <= k < |l.state.required[a]|
    requires l.state.required[a][b] && !Taken(r.attempts(a, b))
    ensures var e := Turn(l, r, forcedTimes, total).state;
            && |e.required| == |l.state.required| && |e.required[a]| == |l.state.required[a]|
            && e.required[a][b] && (l.state.required[a][k] ==> e.required[a][k])
            && e.accepted[a][k] == l.state.accepted[a][k]
  {
    hide UpdateIp, Taken;
    BlockedRound(l.state, r, forcedTimes, a, b, k);
  }

  /** The attempts for aliases behind a failing one are not even made: they have no influence. */
  lemma {:induction false} NotAttempted(t: Table, j: nat, b: nat, i: nat, ip: Address,
                                        one: (nat, nat) -> Attempt, two: (nat, nat) -> Attempt)
    requires j <= b < |t.required| == |t.accepted| && t.required[b]
    requires AttemptCode(one(i, b)) != RC_OK && forall m :: j <= m <= b ==> one(i, m) == two(i, m)
    ensures UpdateServer(t, j, i, ip, one) == UpdateServer(t, j, i, ip, two)
    decreases |t.required| - j
  {
    hide AttemptCode, TryAlias, UpdateServer, Taken;
    if !t.required[j] {
      SkippedTurn(t, j, i, ip, one);
      SkippedTurn(t, j, i, ip, two);
      NotAttempted(t, j + 1, b, i, ip, one, two);
    } else {
      PendingTurn(t, j, i, ip, one);
      PendingTurn(t, j, i, ip, two);
      if j < b {
        var u := TryAlias(t, j, ip, one(i, j));
        NotAttempted(u, j + 1, b, i, ip, one, two);
      }
    }
  }

  /** One server and two pending aliases; the transaction for the first one fails with code e in
      every round, the second one would be accepted. */
  ghost predicate FirstFails(r: Round, e: int) {
    && r.ipError == RC_OK && !r.stop
    && r.attempts(0, 0) == Attempt(RC_OK, e, false, RC_OK)
    && r.attempts(0, 1) == Attempt(RC_OK, RC_OK, true, RC_OK)
  }

  /** The main loop goes on for ever, and the second alias is never announced. */
  lemma {:induction false} SecondAliasWaits(s: State, r: Round, e: int, n: nat, forcedTimes: int)
    requires WellFormed(s) && s.required == [[true, true]]
    requires FirstFails(r, e) && e != RC_OK && e != RC_DYNDNS_RSP_NOTOK
    ensures var m := Run(Loop(s, 0, true, RC_OK), seq(n, _ => r), forcedTimes, 0);
            m.running && m.state.required == [[true, true]] && m.state.accepted[0][1] == s.accepted[0][1]
  {
    var rounds := seq(n, _ => r);
    if n > 0 {
      hide Turn, Run;
      assert rounds[..n - 1] == seq(n - 1, _ => r);
      SecondAliasWaits(s, r, e, n - 1, forcedTimes);
      var m := Run(Loop(s, 0, true, RC_OK), rounds[..n - 1], forcedTimes, 0);
      RunTurn(Loop(s, 0, true, RC_OK), rounds, forcedTimes, 0);
      SecondAliasWaitsOnce(m, r, e, forcedTimes);
    }
  }

  lemma RunTurn(l: Loop, rounds: seq<Round>, forcedTimes: int, total: int)
    requires WellFormed(l.state) && rounds != []
    ensures Run(l, rounds, forcedTimes, total)
         == Turn(Run(l, rounds[..|rounds| - 1], forcedTimes, total), rounds[|rounds| - 1], forcedTimes, total)
  {
    hide Turn;
  }

  lemma SecondAliasWaitsOnce(l: Loop, r: Round, e: int, forcedTimes: int)
    requires WellFormed(l.state) && l.running && l.state.required == [[true, true]]
    requires FirstFails(r, e) && e != RC_OK && e != RC_DYNDNS_RSP_NOTOK
    ensures var m := Turn(l, r, forcedTimes, 0);
            m.running && m.state.required == [[true, true]] && m.state.accepted[0][1] == l.state.accepted[0][1]
  {
    hide UpdateIp, StoreAddress, MarkAliases;
    BlockedRound(l.state, r, forcedTimes, 0, 0, 1);
    MarkingOnlyAdds(l.state, r.ip, r.force, forcedTimes);
    var marked := MarkAliases(StoreAddress(l.state, r.ip), r.force, forcedTimes).required;
    assert marked[0][0];
    assert LastPending(marked, 0) == 0;
    assert ServerCode(marked[0], 0, 0, r.attempts) == e;
    RejectionStops(l, r, forcedTimes, 0);
    var after := UpdateIp(l.state, r, forcedTimes).state.required;
    assert l.state.required[0][1];
    assert after[0] == [true, true];
  }

  // ----- What a round does -----

  /** The three causes to update every alias: another address than the stored one, a forced update,
      and a counter over its limit. */
  predicate Cause(s: State, r: Round, forcedTimes: int)
    requires WellFormed(s)
  {
    r.ip != s.addresses[0] || r.force || s.times > forcedTimes
  }

  /** After marking, an alias is pending if and only if it was before or there is a cause. */
  lemma PendingAfterMarking(s: State, r: Round, forcedTimes: int, i: nat, j: nat)
    requires WellFormed(s) && i < |s.required| && j < |s.required[i]|
    ensures var m := MarkAliases(StoreAddress(s, r.ip), r.force, forcedTimes);
            && |m.required| == |s.required| && |m.required[i]| == |s.required[i]|
            && (m.required[i][j] <==> s.required[i][j] || Cause(s, r, forcedTimes))
  {
  }

  /** The pending aliases of a server from j on. */
  function PendingCount(required: seq<bool>, j: nat): nat
    requires j <= |required|
    decreases |required| - j
  {
    if j == |required| then 0 else (if required[j] then 1 else 0) + PendingCount(required, j + 1)
  }

  lemma {:induction false} PendingCountSuffix(a: seq<bool>, b: seq<bool>, j: nat)
    requires |a| == |b| && j <= |a| && forall k :: j <= k < |a| ==> a[k] == b[k]
    ensures PendingCount(a, j) == PendingCount(b, j)
    decreases |a| - j
  {
    if j < |a| {
      PendingCountSuffix(a, b, j + 1);
    }
  }

  lemma {:induction false} AllPending(n: nat, j: nat)
    requires j <= n
    ensures PendingCount(AllTrue(n), j) == n - j
    decreases n - j
  {
    if j < n {
      AllPending(n, j + 1);
    }
  }

  ghost predicate AllGood(attempts: (nat, nat) -> Attempt) {
    forall i: nat, j: nat :: AttemptCode(attempts(i, j)) == RC_OK
  }

  /** With good attempts, a server accepts exactly its pending aliases. */
  lemma {:induction false} GoodServer(t: Table, j: nat, i: nat, ip: Address, attempts: (nat, nat) -> Attempt)
    requires j <= |t.required| == |t.accepted| && AllGood(attempts)
    ensures UpdateServer(t, j, i, ip, attempts).announcements == t.announcements + PendingCount(t.required, j)
    decreases |t.required| - j
  {
    if j < |t.required| {
      if !t.required[j] {
        GoodServer(t, j + 1, i, ip, attempts);
      } else {
        assert AttemptCode(attempts(i, j)) == RC_OK;
        var u := TryAlias(t, j, ip, attempts(i, j));
        GoodServer(u, j + 1, i, ip, attempts);
        PendingCountSuffix(u.required, t.required, j + 1);
      }
    }
  }

  /** The pending aliases of all servers from i on. */
  function TotalPending(required: seq<seq<bool>>, i: nat): nat
    requires i <= |required|
    decreases |required| - i
  {
    if i == |required| then 0 else PendingCount(required[i], 0) + TotalPending(required, i + 1)
  }

  lemma {:induction false} TotalPendingSuffix(a: seq<seq<bool>>, b: seq<seq<bool>>, i: nat)
    requires |a| == |b| && i <= |a| && forall k :: i <= k < |a| ==> a[k] == b[k]
    ensures TotalPending(a, i) == TotalPending(b, i)
    decreases |a| - i
  {
    if i < |a| {
      TotalPendingSuffix(a, b, i + 1);
    }
  }

  lemma {:induction false} GoodTable(o: Outcome, i: nat, attempts: (nat, nat) -> Attempt)
    requires WellFormed(o.state) && i <= |o.state.required| && AllGood(attempts)
    ensures UpdateFrom(o, i, attempts).state.announcements
         == o.state.announcements + TotalPending(o.state.required, i)
    decreases |o.state.required| - i
  {
    hide UpdateServer, AllGood, PendingCount;
    if i < |o.state.required| {
      var t := UpdateServer(TableOf(o, i), 0, i, o.state.addresses[i], attempts);
      GoodServer(TableOf(o, i), 0, i, o.state.addresses[i], attempts);
      var p := WithTable(o, i, t);
      GoodTable(p, i + 1, attempts);
      TotalPendingSuffix(p.state.required, o.state.required, i + 1);
    }
  }

  function AliasCount(required: seq<seq<bool>>, i: nat): nat
    requires i <= |required|
    decreases |required| - i
  {
    if i == |required| then 0 else |required[i]| + AliasCount(required, i + 1)
  }

  lemma {:induction false} AllMarked(a: seq<seq<bool>>, m: seq<seq<bool>>, i: nat)
    requires |a| == |m| && i <= |a| && forall k :: 0 <= k < |a| ==> m[k] == AllTrue(|a[k]|)
    ensures TotalPending(m, i) == AliasCount(a, i)
    decreases |a| - i
  {
    if i < |a| {
      AllPending(|a[i]|, 0);
      AllMarked(a, m, i + 1);
    }
  }

  /** A round with a cause and good attempts announces every alias of every server under the address
      it found. */
  lemma CausedRound(s: State, r: Round, forcedTimes: int)
    requires WellFormed(s) && r.ipError == RC_OK && Cause(s, r, forcedTimes) && AllGood(r.attempts)
    ensures var o := UpdateIp(s, r, forcedTimes);
            && o.state.announcements == s.announcements + AliasCount(s.required, 0)
            && o.rc == RC_OK && |o.state.required| == |s.required|
            && forall i :: 0 <= i < |s.required| ==>
                 && o.state.addresses[i] == r.ip && |o.state.required[i]| == |s.required[i]|
                 && forall j :: 0 <= j < |s.required[i]| ==> !o.state.required[i][j] && o.state.accepted[i][j] == r.ip
  {
    hide UpdateFrom, AttemptCode, AllGood, GoodUpTo, Taken, ServerCode, NoneRequired;
    MarkedWellFormed(s, r.ip, r.force, forcedTimes);
    var m := MarkAliases(StoreAddress(s, r.ip), r.force, forcedTimes);
    GoodTable(Outcome(m, RC_OK), 0, r.attempts);
    AllMarked(s.required, m.required, 0);
    UpdateFromCode(Outcome(m, RC_OK), 0, r.attempts);
    GoodCode(m.required, r.attempts);
    forall i, j | 0 <= i < |s.required| && 0 <= j < |s.required[i]|
      ensures var e := UpdateIp(s, r, forcedTimes).state;
              |e.required[i]| == |s.required[i]| && !e.required[i][j] && e.accepted[i][j] == r.ip
    {
      AliasInTable(Outcome(m, RC_OK), 0, i, j, r.attempts);
      GoodSucceeds(m.required, i, j, r.attempts);
    }
    UpdateFromShape(Outcome(m, RC_OK), 0, r.attempts);
  }

  lemma GoodCode(required: seq<seq<bool>>, attempts: (nat, nat) -> Attempt)
    requires AllGood(attempts)
    ensures forall l :: 0 <= l < |required| ==> ServerCode(required[l], 0, l, attempts) == RC_OK
  {
    hide AttemptCode;
    forall l | 0 <= l < |required|
      ensures ServerCode(required[l], 0, l, attempts) == RC_OK
    {
      ServerCodeIsGood(required[l], 0, l, attempts);
    }
  }

  lemma GoodSucceeds(required: seq<seq<bool>>, i: nat, j: nat, attempts: (nat, nat) -> Attempt)
    requires i < |required| && j < |required[i]| && required[i][j] && AllGood(attempts)
    ensures Succeeds(required, i, j, attempts)
  {
    hide AttemptCode, Taken;
    CodeOfTaken(attempts(i, j));
  }

  /** A round without a cause and with nothing pending sends nothing: only the address is stored,
      whatever the servers would have answered. */
  lemma IdleRound(s: State, r: Round, forcedTimes: int)
    requires WellFormed(s) && r.ipError == RC_OK && !Cause(s, r, forcedTimes) && NothingPending(s)
    ensures var o := UpdateIp(s, r, forcedTimes);
            && o.rc == RC_OK && o.state == StoreAddress(s, r.ip)
            && forall i :: 0 <= i < |s.addresses| ==> o.state.addresses[i] == r.ip
  {
    var m := StoreAddress(s, r.ip);
    assert MarkAliases(m, r.force, forcedTimes) == m;
    IdleTable(Outcome(m, RC_OK), 0, r.attempts);
  }

  lemma {:induction false} IdleTable(o: Outcome, i: nat, attempts: (nat, nat) -> Attempt)
    requires WellFormed(o.state) && i <= |o.state.required| && NothingPending(o.state)
    ensures UpdateFrom(o, i, attempts) == o
    decreases |o.state.required| - i
  {
    if i < |o.state.required| {
      var t := TableOf(o, i);
      IdleServer(t, 0, i, o.state.addresses[i], attempts);
      assert o.state.required[i := t.required] == o.state.required;
      assert o.state.accepted[i := t.accepted] == o.state.accepted;
      assert WithTable(o, i, t) == o;
      IdleTable(o, i + 1, attempts);
    }
  }

  lemma {:induction false} IdleServer(t: Table, j: nat, i: nat, ip: Address, attempts: (nat, nat) -> Attempt)
    requires j <= |t.required| == |t.accepted| && NoneRequired(t.required, 0)
    ensures UpdateServer(t, j, i, ip, attempts) == t
    decreases |t.required| - j
  {
    if j < |t.required| {
      IdleServer(t, j + 1, i, ip, attempts);
    }
  }

  /** A round that finds no address changes nothing and returns the code of the search. */
  lemma BlindRound(s: State, r: Round, forcedTimes: int)
    requires WellFormed(s) && r.ipError != RC_OK
    ensures UpdateIp(s, r, forcedTimes) == Outcome(s, r.ipError)
  {
  }

  /** The code of an attempt is that of its first step that fails; a rejection has its own. */
  lemma AttemptCodes(a: Attempt)
    ensures a.setUp != RC_OK ==> AttemptCode(a) == a.setUp
    ensures a.setUp == RC_OK && a.transaction != RC_OK ==> AttemptCode(a) == a.transaction
    ensures a.setUp == RC_OK && a.transaction == RC_OK && !a.accepts ==> AttemptCode(a) == 0x48
    ensures Taken(a) ==> AttemptCode(a) == a.shutDown
  {
  }

  // ----- When the main loop ends -----

  /** The rounds of a run that were made and succeeded. */
  function Succeeded(l: Loop, rounds: seq<Round>, forcedTimes: int, total: int): nat
    requires WellFormed(l.state)
  {
    if rounds == [] then 0
    else
      var n := |rounds| - 1;
      var m := Run(l, rounds[..n], forcedTimes, total);
      Succeeded(l, rounds[..n], forcedTimes, total)
      + if m.running && UpdateIp(m.state, rounds[n], forcedTimes).rc == RC_OK then 1 else 0
  }

  ghost predicate NoStop(rounds: seq<Round>) {
    forall k :: 0 <= k < |rounds| ==> !rounds[k].stop
  }

  lemma {:induction false} IterationsCount(s: State, rounds: seq<Round>, forcedTimes: int, total: int)
    requires WellFormed(s)
    ensures var start := Loop(s, 0, true, RC_OK);
            Run(start, rounds, forcedTimes, total).iterations == Succeeded(start, rounds, forcedTimes, total)
  {
    hide UpdateIp;
    if rounds != [] {
      IterationsCount(s, rounds[..|rounds| - 1], forcedTimes, total);
    }
  }

  /** Without a stop command the loop ends exactly with a rejection code or, if a total is set, once
      so many rounds have succeeded, and not a round later. */
  lemma {:induction false} LoopEnds(s: State, rounds: seq<Round>, forcedTimes: int, total: int)
    requires WellFormed(s) && NoStop(rounds)
    ensures var start := Loop(s, 0, true, RC_OK);
            var m, n := Run(start, rounds, forcedTimes, total), Succeeded(start, rounds, forcedTimes, total);
            && (rounds != [] ==> (m.running <==> m.rc != RC_DYNDNS_RSP_NOTOK && (total == 0 || n < total)))
            && (total > 0 ==> n <= total)
            && (total > 0 && m.running ==> n < total)
  {
    var start := Loop(s, 0, true, RC_OK);
    if rounds != [] {
      hide UpdateIp;
      var k := |rounds| - 1;
      assert forall i :: 0 <= i < k ==> rounds[..k][i] == rounds[i];
      LoopEnds(s, rounds[..k], forcedTimes, total);
      IterationsCount(s, rounds[..k], forcedTimes, total);
      IterationsCount(s, rounds, forcedTimes, total);
      RunTurn(start, rounds, forcedTimes, total);
    }
  }

  /** A stop command ends the loop after its round, with a good code unless the round was rejected or
      completed the total. */
  lemma StopEnds(l: Loop, r: Round, forcedTimes: int, total: int)
    requires WellFormed(l.state) && l.running && r.stop
    ensures var m, o := Turn(l, r, forcedTimes, total), UpdateIp(l.state, r, forcedTimes);
            && !m.running && m.state == o.state
            && (o.rc != RC_DYNDNS_RSP_NOTOK && (total == 0 || m.iterations < total) ==> m.rc == RC_OK)
  {
    hide UpdateIp;
  }

  lemma {:induction false} EndedStays(l: Loop, rounds: seq<Round>, forcedTimes: int, total: int)
    requires WellFormed(l.state) && !l.running
    ensures Run(l, rounds, forcedTimes, total) == l
  {
    hide UpdateIp;
    if rounds != [] {
      EndedStays(l, rounds[..|rounds| - 1], forcedTimes, total);
    }
  }

  function Max0(n: int): nat {
    if n < 0 then 0 else n
  }

  /** What holds at the head of the main loop, whatever the network and the servers do. */
  ghost predicate Sound(l: Loop, forcedTimes: int) {
    && Consistent(l.state) && Announced(l.state)
    && (HasAlias(l.state) ==> 0 <= l.state.times <= Max0(forcedTimes) + 1)
  }

  lemma TurnKeeps(l: Loop, r: Round, forcedTimes: int, total: int)
    requires Sound(l, forcedTimes)
    ensures Sound(Turn(l, r, forcedTimes, total), forcedTimes)
    ensures HasAlias(Turn(l, r, forcedTimes, total).state) == HasAlias(l.state)
  {
    hide UpdateIp, TableAnnounced;
    RoundKeeps(l.state, r, forcedTimes);
  }

  lemma {:induction false} RunKeeps(s: State, rounds: seq<Round>, forcedTimes: int, total: int)
    requires Initial(s)
    ensures Sound(Run(Loop(s, 0, true, RC_OK), rounds, forcedTimes, total), forcedTimes)
    ensures HasAlias(Run(Loop(s, 0, true, RC_OK), rounds, forcedTimes, total).state) == HasAlias(s)
  {
    hide Turn;
    var start := Loop(s, 0, true, RC_OK);
    if rounds != [] {
      var n := |rounds| - 1;
      RunKeeps(s, rounds[..n], forcedTimes, total);
      TurnKeeps(Run(start, rounds[..n], forcedTimes, total), rounds[n], forcedTimes, total);
    }
  }

  /** At every round boundary of every run, an alias with no pending update was last accepted by
      its server under the address the client holds now, unless no address is known yet. */
  lemma AnnouncedAlways(s: State, rounds: seq<Round>, forcedTimes: int, total: int, i: nat, j: nat)
    requires Initial(s)
    ensures var e := Run(Loop(s, 0, true, RC_OK), rounds, forcedTimes, total).state;
            && Consistent(e)
            && (i < |e.required| && j < |e.required[i]| && !e.required[i][j] && e.addresses[i] != "" ==>
                  e.accepted[i][j] == e.addresses[i])
  {
    hide Run;
    RunKeeps(s, rounds, forcedTimes, total);
  }

  /** The forced-refresh counter at the head of the main loop. */
  lemma CounterBounded(s: State, rounds: seq<Round>, forcedTimes: int, total: int)
    requires Initial(s) && HasAlias(s)
    ensures 0 <= Run(Loop(s, 0, true, RC_OK), rounds, forcedTimes, total).state.times <= Max0(forcedTimes) + 1
  {
    hide Run;
    RunKeeps(s, rounds, forcedTimes, total);
  }

  /** A stretch of rounds that all succeed and leave the loop running, without an accepted update. */
  ghost predicate Quiet(l: Loop, rounds: seq<Round>, forcedTimes: int, total: int)
    requires WellFormed(l.state)
  {
    forall k :: 1 <= k <= |rounds| ==>
      var m := Run(l, rounds[..k], forcedTimes, total);
      m.running && m.rc == RC_OK && m.state.announcements == l.state.announcements
  }

  lemma {:induction false} QuietCounts(l: Loop, rounds: seq<Round>, forcedTimes: int, total: int)
    requires Sound(l, forcedTimes) && HasAlias(l.state) && l.running && Quiet(l, rounds, forcedTimes, total)
    ensures var m := Run(l, rounds, forcedTimes, total);
            && Sound(m, forcedTimes) && HasAlias(m.state) && m.running && m.state.announcements == l.state.announcements
            && m.state.times == l.state.times + |rounds|
  {
    hide TableAnnounced, UpdateIp;
    if rounds != [] {
      var n := |rounds| - 1;
      assert forall k :: 1 <= k <= n ==> rounds[..n][..k] == rounds[..k];
      QuietCounts(l, rounds[..n], forcedTimes, total);
      var m := Run(l, rounds[..n], forcedTimes, total);
      assert rounds[..n + 1] == rounds;
      RoundKeeps(m.state, rounds[n], forcedTimes);
      TurnKeeps(m, rounds[n], forcedTimes, total);
    }
  }

  /** From any reachable point, at most max(forced, 0) + 1 rounds can succeed in a row without a
      single accepted announcement. */
  lemma QuietIsBounded(s: State, before: seq<Round>, quiet: seq<Round>, forcedTimes: int, total: int)
    requires Initial(s) && HasAlias(s)
    requires Run(Loop(s, 0, true, RC_OK), before, forcedTimes, total).running
    requires Quiet(Run(Loop(s, 0, true, RC_OK), before, forcedTimes, total), quiet, forcedTimes, total)
    ensures |quiet| <= Max0(forcedTimes) + 1
  {
    hide Run, Quiet, TableAnnounced;
    RunKeeps(s, before, forcedTimes, total);
    QuietCounts(Run(Loop(s, 0, true, RC_OK), before, forcedTimes, total), quiet, forcedTimes, total);
  }

  // ----- The configured periods -----

  /** The limits DYNDNS_MIN_SLEEP and DYNDNS_MAX_SLEEP. */
  function ClampSleep(sec: int): (s: int)
    ensures 30 <= s <= 864000
    ensures 30 <= sec <= 864000 ==> s == sec
    ensures s < sec ==> s == 864000
    ensures s > sec ==> s == 30
  {
    if sec < 30 then 30 else if sec > 864000 then 864000 else sec
  }

  /** forced_update_times */
  function ForcedUpdateTimes(periodSec: int, sleepSec: int): int
    requires sleepSec > 0
  {
    TruncDiv(periodSec, sleepSec)
  }

  /** As many whole sleep periods as fit into the forced update period. */
  lemma ForcedTimesFit(periodSec: int, sleepSec: int)
    requires sleepSec > 0
    ensures Max0(ForcedUpdateTimes(periodSec, sleepSec)) * sleepSec <= Max0(periodSec)
    ensures periodSec < Max0(ForcedUpdateTimes(periodSec, sleepSec)) * sleepSec + sleepSec
  {
    var n := ForcedUpdateTimes(periodSec, sleepSec);
    if periodSec < 0 {
      NotPositive(n, sleepSec, periodSec);
    } else {
      NotNegative(n, sleepSec, periodSec);
    }
  }

  lemma NotPositive(n: int, sleepSec: int, periodSec: int)
    requires sleepSec > 0 && n * sleepSec - sleepSec < periodSec < 0
    ensures n <= 0
  {
    Distribute(sleepSec, n - 1);
    Divide(n - 1, 0, sleepSec);
  }

  lemma NotNegative(n: int, sleepSec: int, periodSec: int)
    requires sleepSec > 0 && 0 <= periodSec < n * sleepSec + sleepSec
    ensures n >= 0
  {
    Distribute(sleepSec, n);
    Divide(0, n + 1, sleepSec);
  }

  lemma Rounds(n: nat, most: nat, sleep: int)
    requires n <= most + 1 && sleep > 0
    ensures n * sleep <= most * sleep + sleep
  {
    Multiply(n, most + 1, sleep);
    Distribute(sleep, most);
  }

  /** In terms of time: rounds a sleep period apart that succeed without an accepted announcement
      cover at most the forced update period and one sleep period more. */
  lemma QuietTime(s: State, before: seq<Round>, quiet: seq<Round>, periodSec: int, seconds: int, total: int)
    requires Initial(s) && HasAlias(s)
    requires var f := ForcedUpdateTimes(periodSec, ClampSleep(seconds));
             && Run(Loop(s, 0, true, RC_OK), before, f, total).running
             && Quiet(Run(Loop(s, 0, true, RC_OK), before, f, total), quiet, f, total)
    ensures |quiet| * ClampSleep(seconds) <= Max0(periodSec) + ClampSleep(seconds)
  {
    hide Run, Quiet, ClampSleep, ForcedUpdateTimes;
    var sleep := ClampSleep(seconds);
    var f := ForcedUpdateTimes(periodSec, sleep);
    QuietIsBounded(s, before, quiet, f, total);
    ForcedTimesFit(periodSec, sleep);
    Rounds(|quiet|, Max0(f), sleep);
  }
}
