/** The driver's event handling on the linked queues: the interrupt handler and the event ioctls
    (art/modules/dk_isr.c:167-230, art/modules/dk_func.c:289-358). Each of them refines a step of
    DriverSpec. */
module Driver {

  import opened Bits
  import opened EventQueue
  import opened DriverSpec

  class Client {
    const isr: Queue
    const triggered: Queue
    /** Numbers the accepted requests, so that events can be told apart; not part of the driver. */
    var accepted: nat
    ghost var requests: seq<Request>
    ghost var log: seq<EventData>
    ghost var delivered: seq<EventData>

    ghost predicate Valid()
      reads this, isr, triggered, isr.repr, triggered.repr
    {
      && isr != triggered
      && isr.Valid()
      && triggered.Valid()
      && isr.repr !! triggered.repr
      && accepted == |requests|
    }

    /** The state the run lemmas of DriverSpec speak of. */
    ghost function Sys(): System
      reads this, isr, triggered
    {
      System(isr.contents, triggered.contents, requests, log, delivered)
    }

    constructor ()
      ensures Valid() && Sys() == START
    {
      isr := new Queue();
      triggered := new Queue();
      accepted := 0;
      requests, log, delivered := [], [], [];
    }

    /** DK_IOCTL_CREATE_EVENT */
    method CreateEvent(p: Request, valid: bool, memory: bool) returns (ret: int)
      requires Valid()
      modifies this, isr, isr.repr
      ensures Valid() && Sys() == Next(old(Sys()), Create(p, valid, memory))
      ensures ret == if Accepted(Create(p, valid, memory)) then 0 else -1
      ensures fresh(isr.repr - old(isr.repr))
    {
      hide LowHalf, HighHalf, Queue.Valid;
      ret := -1;
      if valid {
        if memory {
          var pEvent := new Event(EventData(accepted, p[0], p[1], p[2], p[3], p[4],
                                            LowHalf(p[5]), HighHalf(p[5]), [0, 0, 0, 0, 0, 0]));
          if pEvent.data.kind == ISR_INTERRUPT {
            if pEvent.data.param1 == 0 {
              pEvent.data := pEvent.data.(param1 := 0xFFFF_FFFF);
            }
            isr.Push(pEvent);
            accepted := accepted + 1;
            requests := requests + [p];
            ret := 0;
          }
        }
      }
    }

    /** DK_IOCTL_GET_NEXT_EVENT */
    method GetNextEvent() returns (valid: bool, param: seq<Word>)
      requires Valid()
      modifies this, triggered, triggered.repr
      ensures Valid() && Sys() == Next(old(Sys()), GetNext)
      ensures valid == CounterShows(|old(Sys()).triggered|)
      ensures valid ==> param == Delivered(old(Sys()).triggered[0])
      ensures triggered.repr <= old(triggered.repr)
    {
      hide JoinHalves, Queue.Valid;
      valid, param := false, [];
      if triggered.queueSize != 0 {
        if triggered.pHead != null {
          var pEvent := triggered.Pop();
          valid := true;
          param := [pEvent.data.kind, pEvent.data.persistent, pEvent.data.param1, pEvent.data.param2,
                    pEvent.data.param3, JoinHalves(pEvent.data.f2Handle, pEvent.data.eventID)] + pEvent.data.result;
          delivered := delivered + [pEvent.data];
        }
      }
    }

    /** A persistent event: a copy of it goes onto the triggered queue. */
    method FireCopy(p: Event)
      requires Valid() && p in isr.repr
      modifies this`log, triggered, triggered.repr
      ensures Valid() && fresh(triggered.repr - old(triggered.repr))
      ensures triggered.contents == old(triggered.contents) + [p.data] && log == old(log) + [p.data]
    {
      hide Queue.Valid;
      var pEventCopy := new Event(p.data);
      triggered.Push(pEventCopy);
      log := log + [p.data];
    }

    /** A one-shot event: it moves onto the triggered queue, and its forward link is cleared. */
    method FireOneShot(p: Event, ghost k: nat)
      requires Valid() && k < |isr.nodes| && p == isr.nodes[k]
      modifies this`log, isr, triggered, isr.repr, triggered.repr
      ensures Valid() && isr.contents == RemoveAt(old(isr.contents), k)
      ensures isr.repr == old(isr.repr) - {p} && triggered.repr == old(triggered.repr) + {p}
      ensures triggered.contents == old(triggered.contents) + [p.data] && log == old(log) + [p.data]
      ensures p.data == old(p.data) && p.pNext == null
    {
      hide Queue.Valid;
      assert p in isr.repr;
      isr.Remove(p, k);
      triggered.Push(p);
      log := log + [p.data];
    }

    /** One turn of the scan in dk_intr_handler, at the event p at position k. It goes on with the
        event next at position k'; pushed is what it put onto the triggered queue. */
    method Turn(p: Event, ghost k: nat, pri: Word, sec: Secondary, copyWorks: bool, ghost copies: nat -> bool)
      returns (next: Event?, ghost k': nat, ghost pushed: seq<EventData>)
      requires Valid() && k < |isr.nodes| && p == isr.nodes[k] && copyWorks == copies(k)
      modifies this`log, isr, triggered, isr.repr, triggered.repr
      ensures Valid() && k' <= |isr.nodes| && next == At(isr.nodes, k')
      ensures |isr.nodes| - k' < |old(isr.nodes)| - k && (next != null ==> k' == k + 1)
      ensures isr.repr <= old(isr.repr) && fresh(triggered.repr - old(isr.repr) - old(triggered.repr))
      ensures triggered.contents == old(triggered.contents) + pushed && log == old(log) + pushed
      ensures var before := ScanFrom(old(isr.contents), k, pri, sec, copies);
              var after := ScanFrom(isr.contents, k', pri, sec, copies);
              after.isr == before.isr && pushed + after.fired == before.fired
    {
      hide Queue.Valid, Admits;
      NodeData(isr, k);
      NodeNext(isr, k);
      pushed := [];
      var hit := TestMask(pri, p.data.param1);
      if p.data.kind != ISR_INTERRUPT || !hit {
        next, k' := p.pNext, k + 1;
        return;
      }
      var e := Report(p.data, pri, sec);
      isr.Change(p, k, e);
      if p.data.persistent != 0 {
        if !copyWorks {
          next, k' := null, |isr.nodes|;
        } else {
          FireCopy(p);
          pushed := [e];
          next, k' := p.pNext, k + 1;
        }
      } else {
        FireOneShot(p, k);
        pushed := [e];
        next, k' := p.pNext, |isr.nodes|;
      }
    }

    /** The scan of dk_intr_handler. */
    method HandleInterrupt(pri: Word, sec: Secondary, copies: nat -> bool)
      requires Valid()
      modifies this, isr, triggered, isr.repr, triggered.repr
      ensures Valid() && Sys() == Next(old(Sys()), Interrupt(pri, sec, copies))
      ensures isr.repr <= old(isr.repr) && fresh(triggered.repr - old(isr.repr) - old(triggered.repr))
    {
      hide Queue.Valid, ScanFrom;
      ghost var before, goal := Sys(), ScanFrom(isr.contents, 0, pri, sec, copies);
      var pEvent := isr.pHead;
      var position := 0;
      ghost var k := 0;
      ghost var pushed := [];
      while pEvent != null
        invariant Valid() && 0 <= k <= |isr.nodes| && pEvent == At(isr.nodes, k)
        invariant pEvent != null ==> position == k
        invariant requests == before.requests && delivered == before.delivered
        invariant isr.repr <= old(isr.repr) && fresh(triggered.repr - old(isr.repr) - old(triggered.repr))
        invariant triggered.contents == before.triggered + pushed && log == before.log + pushed
        invariant var rest := ScanFrom(isr.contents, k, pri, sec, copies);
                  rest.isr == goal.isr && pushed + rest.fired == goal.fired
        decreases |isr.nodes| - k
      {
        ghost var more;
        pEvent, k, more := Turn(pEvent, k, pri, sec, copies(position), copies);
        pushed := pushed + more;
        position := position + 1;
      }
      ScanEnd(isr.contents, pri, sec, copies);
      assert pushed + [] == pushed;
    }
  }

  lemma ScanEnd(isr: seq<EventData>, pri: Word, sec: Secondary, copies: nat -> bool)
    ensures ScanFrom(isr, |isr|, pri, sec, copies) == Scan(isr, [])
  {
  }

  /** The test of the interrupt handler. */
  method TestMask(priIsr: Word, param1: Word) returns (hit: bool)
    ensures hit == Admits(param1, priIsr)
    ensures hit <==> ShareBit(param1, priIsr)
  {
    hide ShareBit;
    MaskByBits(param1, priIsr);
    hit := priIsr & param1 != 0;
  }

  lemma NodeData(q: Queue, k: nat)
    requires q.Valid() && k < |q.nodes|
    ensures q.nodes[k].data == q.contents[k]
  {
  }

  lemma NodeNext(q: Queue, k: nat)
    requires q.Valid() && k < |q.nodes|
    ensures q.nodes[k].pNext == At(q.nodes, k + 1)
  {
  }
}
