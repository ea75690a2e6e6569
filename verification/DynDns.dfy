/** The dynamic DNS client with its fields updated in place (inadyn/dyndns.c). Each method computes
    a function of DynDnsSpec. */
module DynDns {

  import opened DynDnsSpec

  class Client {
    var addresses: seq<Address>
    var changed: seq<bool>
    var required: seq<seq<bool>>
    var times: int
    const forcedTimes: int
    ghost var accepted: seq<seq<Address>>
    ghost var announcements: nat

    ghost function State(): State
      reads this
    {
      DynDnsSpec.State(addresses, changed, required, times, accepted, announcements)
    }

    ghost predicate Valid()
      reads this
    {
      WellFormed(State())
    }

    /** A configured client: aliasCounts gives the number of aliases of each server. */
    constructor (aliasCounts: seq<nat>, forcedTimes: int)
      requires |aliasCounts| > 0
      ensures Valid() && Initial(State()) && this.forcedTimes == forcedTimes
      ensures |required| == |aliasCounts| && forall i :: 0 <= i < |aliasCounts| ==> |required[i]| == aliasCounts[i]
    {
      addresses := seq(|aliasCounts|, i => "");
      changed := seq(|aliasCounts|, i => false);
      required := seq(|aliasCounts|, i requires 0 <= i < |aliasCounts| => seq(aliasCounts[i], j => false));
      accepted := seq(|aliasCounts|, i requires 0 <= i < |aliasCounts| => seq(aliasCounts[i], j => ""));
      times, announcements := 0, 0;
      this.forcedTimes := forcedTimes;
    }

    /** The loop of do_parse_my_ip_address over the servers. */
    method ParseMyIpAddress(ip: FoundAddress)
      requires Valid()
      modifies this
      ensures State() == StoreAddress(old(State()), ip)
    {
      ghost var goal := StoreAddress(State(), ip);
      var i := 0;
      while i < |addresses|
        invariant 0 <= i <= |addresses| == |changed| == |old(addresses)|
        invariant required == old(required) && times == old(times)
        invariant accepted == old(accepted) && announcements == old(announcements)
        invariant forall k :: 0 <= k < i ==> changed[k] == goal.changed[k] && addresses[k] == ip
        invariant forall k :: i <= k < |addresses| ==> addresses[k] == old(addresses)[k]
      {
        changed := changed[i := ip != addresses[i]];
        addresses := addresses[i := ip];
        i := i + 1;
      }
      assert addresses == goal.addresses && changed == goal.changed;
    }

    /** do_check_alias_update_table */
    method CheckAliasUpdateTable(force: bool)
      requires Valid()
      modifies this`required
      ensures State() == MarkAliases(old(State()), force, forcedTimes)
    {
      if changed[0] || force || times > forcedTimes {
        var i := 0;
        while i < |required|
          invariant 0 <= i <= |required| == |old(required)|
          invariant forall k :: 0 <= k < i ==> required[k] == AllTrue(|old(required)[k]|)
          invariant forall k :: i <= k < |required| ==> required[k] == old(required)[k]
        {
          var j := 0;
          var row := required[i];
          while j < |row|
            invariant 0 <= j <= |row| == |required[i]|
            invariant forall k :: 0 <= k < j ==> row[k]
          {
            row := row[j := true];
            j := j + 1;
          }
          assert row == AllTrue(|row|);
          required := required[i := row];
          i := i + 1;
        }
      }
    }

    /** One attempt of do_update_alias_table; the return code is rc afterwards. */
    method UpdateAlias(i: nat, j: nat, rc: int, a: Attempt) returns (rc': int)
      requires Valid() && i < |required| && j < |required[i]|
      modifies this`required, this`times, this`accepted, this`announcements
      ensures Valid()
      ensures var o := DynDnsSpec.Outcome(old(State()), rc);
              Outcome(State(), rc') == WithTable(o, i, TryAlias(TableOf(o, i), j, addresses[i], a))
    {
      rc' := a.setUp;
      if rc' == RC_OK {
        rc' := a.transaction;
        if rc' == RC_OK {
          if a.accepts {
            required := required[i := required[i][j := false]];
            accepted := accepted[i := accepted[i][j := addresses[i]]];
            announcements := announcements + 1;
            times := 0;
          } else {
            rc' := RC_DYNDNS_RSP_NOTOK;
          }
        }
        if rc' == RC_OK {
          rc' := a.shutDown;
        }
      }
      assert required == required[i := required[i]] && accepted == accepted[i := accepted[i]];
    }

    /** The inner loop of do_update_alias_table. */
    method UpdateServerAliases(i: nat, rc: int, attempts: (nat, nat) -> Attempt) returns (rc': int)
      requires Valid() && i < |required|
      modifies this`required, this`times, this`accepted, this`announcements
      ensures Valid()
      ensures var o := DynDnsSpec.Outcome(old(State()), rc);
              Outcome(State(), rc') == WithTable(o, i, UpdateServer(TableOf(o, i), 0, i, addresses[i], attempts))
    {
      ghost var o := DynDnsSpec.Outcome(State(), rc);
      ghost var goal := UpdateServer(TableOf(o, i), 0, i, addresses[i], attempts);
      assert required == required[i := required[i]] && accepted == accepted[i := accepted[i]];
      rc' := rc;
      var j := 0;
      while j < |required[i]|
        invariant Valid() && |required| == |o.state.required| && 0 <= j <= |required[i]|
        invariant UpdateServer(TableOf(Outcome(State(), rc'), i), j, i, addresses[i], attempts) == goal
        invariant |required[i]| == |o.state.required[i]|
        invariant Outcome(State(), rc') == WithTable(o, i, TableOf(Outcome(State(), rc'), i))
        decreases |o.state.required[i]| - j
      {
        if required[i][j] {
          ghost var before := Outcome(State(), rc');
          rc' := UpdateAlias(i, j, rc', attempts(i, j));
          WithTableTwice(o, i, TableOf(before, i), TableOf(Outcome(State(), rc'), i));
          if rc' != RC_OK {
            return;
          }
        }
        j := j + 1;
      }
    }

    /** do_update_alias_table: the outer loop goes on after a failure. */
    method UpdateAliasTable(attempts: (nat, nat) -> Attempt) returns (rc: int)
      requires Valid()
      modifies this`required, this`times, this`accepted, this`announcements
      ensures Valid()
      ensures Outcome(State(), rc) == UpdateFrom(Outcome(old(State()), RC_OK), 0, attempts)
    {
      hide UpdateServer;
      ghost var goal := UpdateFrom(Outcome(State(), RC_OK), 0, attempts);
      rc := RC_OK;
      var i := 0;
      while i < |required|
        invariant Valid() && 0 <= i <= |required| == |old(required)|
        invariant UpdateFrom(Outcome(State(), rc), i, attempts) == goal
      {
        rc := UpdateServerAliases(i, rc, attempts);
        i := i + 1;
      }
    }

    /** dyn_dns_update_ip */
    method UpdateIp(r: Round) returns (rc: int)
      requires Valid()
      modifies this
      ensures Valid()
      ensures Outcome(State(), rc) == DynDnsSpec.UpdateIp(old(State()), r, forcedTimes)
    {
      hide UpdateFrom;
      rc := r.ipError;
      if rc == RC_OK {
        ParseMyIpAddress(r.ip);
        CheckAliasUpdateTable(r.force);
        rc := UpdateAliasTable(r.attempts);
      }
    }

    /** The loop of dyn_dns_main over the rounds that the environment provides. */
    method MainLoop(rounds: seq<Round>, total: int) returns (rc: int, iterations: nat, running: bool)
      requires Valid()
      modifies this
      ensures Valid()
      ensures Loop(State(), iterations, running, rc)
           == Run(Loop(old(State()), 0, true, RC_OK), rounds, forcedTimes, total)
    {
      hide DynDnsSpec.UpdateIp;
      ghost var start := Loop(State(), 0, true, RC_OK);
      rc, iterations, running := RC_OK, 0, true;
      for k := 0 to |rounds|
        invariant Valid()
        invariant Loop(State(), iterations, running, rc) == Run(start, rounds[..k], forcedTimes, total)
      {
        assert rounds[..k + 1][..k] == rounds[..k];
        if running {
          rc := UpdateIp(rounds[k]);
          if rc == RC_DYNDNS_RSP_NOTOK {
            running := false;
          } else {
            if rc == RC_OK {
              iterations := iterations + 1;
            }
            if iterations >= total && total != 0 {
              running := false;
            } else if rounds[k].stop {
              rc, running := RC_OK, false;
            } else if rc == RC_OK {
              times := times + 1;
            }
          }
        }
      }
      assert rounds[..|rounds|] == rounds;
    }
  }

  lemma WithTableTwice(o: Outcome, i: nat, t: Table, u: Table)
    requires WellFormed(o.state) && i < |o.state.required|
    requires |t.required| == |t.accepted| == |u.required| == |u.accepted| == |o.state.required[i]|
    ensures WithTable(WithTable(o, i, t), i, u) == WithTable(o, i, u)
    ensures TableOf(WithTable(o, i, t), i) == t
  {
  }
}
