/** The doubly linked event queues of the driver (art/modules/dk_event.c). */
module EventQueue {

  type Word = bv32

  /** event_struct without its links. The tag tells events apart: a copy carries the tag of the
      event it was made from. */
  datatype EventData = EventData(
    tag: nat, kind: Word, persistent: Word, param1: Word, param2: Word, param3: Word,
    eventID: Word, f2Handle: Word, result: seq<Word>)

  class Event {
    var pNext: Event?
    var pLast: Event?
    var data: EventData

    constructor (data: EventData)
      ensures this.data == data && pNext == null && pLast == null
    {
      this.data := data;
      pNext, pLast := null, null;
    }
  }

  function RemoveAt<T>(s: seq<T>, k: nat): (r: seq<T>)
    requires k < |s|
    ensures |r| == |s| - 1
  {
    s[..k] + s[k + 1..]
  }

  /** The node at position i, and null beyond both ends. */
  ghost function At(nodes: seq<Event>, i: int): Event? {
    if 0 <= i < |nodes| then nodes[i] else null
  }

  ghost predicate Distinct(nodes: seq<Event>) {
    forall i, j :: 0 <= i < j < |nodes| ==> nodes[i] != nodes[j]
  }

  lemma DistinctAfterRemove(nodes: seq<Event>, k: nat)
    requires Distinct(nodes) && k < |nodes|
    ensures Distinct(RemoveAt(nodes, k)) && nodes[k] !in RemoveAt(nodes, k)
  {
  }

  ghost predicate Within(nodes: seq<Event>, repr: set<Event>) {
    forall i :: 0 <= i < |nodes| ==> nodes[i] in repr
  }

  /** Every node points to its neighbour on either side. */
  ghost predicate Forward(nodes: seq<Event>, repr: set<Event>)
    requires Within(nodes, repr)
    reads repr
  {
    forall i {:trigger nodes[i].pNext} :: 0 <= i < |nodes| ==> nodes[i].pNext == At(nodes, i + 1)
  }

  ghost predicate Backward(nodes: seq<Event>, repr: set<Event>)
    requires Within(nodes, repr)
    reads repr
  {
    forall i {:trigger nodes[i].pLast} :: 0 <= i < |nodes| ==> nodes[i].pLast == At(nodes, i - 1)
  }

  ghost predicate Holds(nodes: seq<Event>, repr: set<Event>, contents: seq<EventData>)
    requires Within(nodes, repr)
    reads repr
  {
    && |contents| == |nodes|
    && forall i {:trigger nodes[i].data} {:trigger contents[i]} :: 0 <= i < |nodes| ==> nodes[i].data == contents[i]
  }

  lemma DistinctAfterPush(nodes: seq<Event>, repr: set<Event>, e: Event)
    requires Distinct(nodes) && Within(nodes, repr) && e !in repr
    ensures Distinct(nodes + [e])
  {
  }

  lemma CountDown(n: nat)
    requires n > 0
    ensures (n % 0x1_0000 + 0xFFFF) % 0x1_0000 == (n - 1) % 0x1_0000
  {
  }

  class Queue {
    var pHead: Event?
    var pTail: Event?
    var queueSize: nat
    ghost var nodes: seq<Event>
    ghost var repr: set<Event>
    ghost var contents: seq<EventData>

    /** The links form one chain from pHead to pTail and are each other's inverse; queueSize is a
        16-bit counter; contents lists the events, head first. After deleteEventQueue pTail of the
        empty queue is left dangling. */
    ghost predicate Valid()
      reads this, repr
      ensures Valid() ==> queueSize == |contents| % 0x1_0000 && pHead == At(nodes, 0) && |nodes| == |contents|
      ensures Valid() ==> Within(nodes, repr)
    {
      && Distinct(nodes)
      && Within(nodes, repr)
      && Forward(nodes, repr)
      && Backward(nodes, repr)
      && Holds(nodes, repr, contents)
      && pHead == At(nodes, 0)
      && (nodes != [] ==> pTail == nodes[|nodes| - 1])
      && queueSize == |nodes| % 0x1_0000
    }

    /** initEventQueue */
    constructor ()
      ensures Valid() && contents == [] && repr == {}
    {
      pHead, pTail := null, null;
      queueSize := 0;
      nodes, repr, contents := [], {}, [];
    }

    /** queueSize--, in 16 bits */
    method CountOneLess(ghost n: nat)
      requires n > 0 && queueSize == n % 0x1_0000
      modifies this`queueSize
      ensures queueSize == (n - 1) % 0x1_0000
    {
      CountDown(n);
      queueSize := (queueSize + 0xFFFF) % 0x1_0000;
    }

    /** queueSize++, in 16 bits */
    method CountOneMore(ghost n: nat)
      requires queueSize == n % 0x1_0000
      modifies this`queueSize
      ensures queueSize == (n + 1) % 0x1_0000
    {
      queueSize := (queueSize + 1) % 0x1_0000;
    }

    /** deleteEventQueue: only the forward links are followed, and pTail is left as it was. */
    method Delete()
      requires Valid()
      modifies this
      ensures Valid() && contents == [] && repr == {} && queueSize == 0 && pTail == old(pTail)
    {
      ghost var k := 0;
      while pHead != null
        invariant nodes == old(nodes) && repr == old(repr) && pTail == old(pTail)
        invariant 0 <= k <= |nodes| && pHead == At(nodes, k)
        invariant Within(nodes, repr) && Forward(nodes, repr)
        invariant queueSize == (|nodes| - k) % 0x1_0000
        decreases |nodes| - k
      {
        var pNextEvent := pHead.pNext;
        CountOneLess(|nodes| - k);
        pHead := pNextEvent;
        k := k + 1;
      }
      nodes, repr, contents := [], {}, [];
    }

    /** The relinking part of pushEvent. */
    method LinkAtTail(pEvent: Event)
      requires Valid()
      requires pEvent !in repr && pEvent.pNext == null && pEvent.pLast == null
      modifies this`pHead, this`pTail, repr`pNext, pEvent`pLast
      ensures var longer := nodes + [pEvent];
              && Within(longer, repr + {pEvent})
              && Forward(longer, repr + {pEvent}) && Backward(longer, repr + {pEvent})
              && Holds(longer, repr + {pEvent}, contents + [pEvent.data])
              && pHead == longer[0] && pTail == pEvent
    {
      if pHead == null {
        pHead := pEvent;
        pTail := pEvent;
      } else {
        pTail.pNext := pEvent;
        pEvent.pLast := pTail;
        pTail := pEvent;
      }
    }

    /** pushEvent, for an event that is in no queue. */
    method Push(pEvent: Event)
      requires Valid()
      requires pEvent !in repr && pEvent.pNext == null && pEvent.pLast == null
      modifies this, repr`pNext, pEvent`pLast
      ensures Valid()
      ensures contents == old(contents) + [pEvent.data]
      ensures nodes == old(nodes) + [pEvent] && repr == old(repr) + {pEvent}
    {
      DistinctAfterPush(nodes, repr, pEvent);
      LinkAtTail(pEvent);
      CountOneMore(|nodes|);
      nodes, repr, contents := nodes + [pEvent], repr + {pEvent}, contents + [pEvent.data];
      hide Distinct, Forward, Backward, Holds, Within;
    }

    /** popEvent */
    method Pop() returns (pEvent: Event?)
      requires Valid()
      modifies this, repr`pNext, repr`pLast
      ensures Valid() && repr <= old(repr)
      ensures old(contents) == [] ==> pEvent == null && contents == []
      ensures old(contents) != [] ==>
                && pEvent != null && pEvent in old(repr)
                && pEvent.data == old(contents)[0] && contents == old(contents)[1..]
                && pEvent.pNext == null && pEvent.pLast == null
    {
      pEvent := pHead;
      if pEvent != null {
        assert nodes[0].pNext == At(nodes, 1) && nodes[0].pLast == null;
        pHead := pEvent.pNext;
        pEvent.pNext := null;
        if pHead == null {
          pTail := null;
        } else {
          pHead.pLast := null;
        }
        CountOneLess(|nodes|);
        nodes, contents := nodes[1..], contents[1..];
      }
    }

    /** The first half of removeEvent: the forward link of the previous event. */
    method UnlinkForward(pEvent: Event, ghost k: nat)
      requires Valid() && k < |nodes| && pEvent == nodes[k]
      modifies this`pHead, repr`pNext
      ensures Within(RemoveAt(nodes, k), repr) && Forward(RemoveAt(nodes, k), repr)
      ensures pEvent.pNext == old(pEvent.pNext)
      ensures pHead == At(RemoveAt(nodes, k), 0)
    {
      assert nodes[k].pLast == At(nodes, k - 1) && nodes[k].pNext == At(nodes, k + 1);
      ghost var a, b := nodes, RemoveAt(nodes, k);
      if pEvent.pLast != null {
        pEvent.pLast.pNext := pEvent.pNext;
      } else {
        pHead := pEvent.pNext;
      }
      forall i | 0 <= i < |b|
        ensures b[i].pNext == At(b, i + 1)
      {
        var j := if i < k then i else i + 1;
        assert b[i] == a[j] && old(a[j].pNext) == At(a, j + 1);
        if j == k - 1 {
          assert At(b, i + 1) == At(a, k + 1);
        } else {
          assert k > 0 ==> a[j] != a[k - 1];
          assert At(b, i + 1) == At(a, j + 1);
        }
      }
    }

    /** The second half of removeEvent: the backward link of the next event, and the links of the
        removed event itself. */
    method UnlinkBackward(pEvent: Event, ghost k: nat)
      requires Distinct(nodes) && Within(nodes, repr) && Backward(nodes, repr) && k < |nodes| && pEvent == nodes[k]
      requires pEvent.pNext == At(nodes, k + 1) && pTail == nodes[|nodes| - 1]
      requires Within(RemoveAt(nodes, k), repr) && Forward(RemoveAt(nodes, k), repr)
      requires pEvent !in RemoveAt(nodes, k)
      modifies this`pTail, repr`pLast, pEvent`pNext
      ensures Forward(RemoveAt(nodes, k), repr) && Backward(RemoveAt(nodes, k), repr)
      ensures pEvent.pNext == null && pEvent.pLast == null
      ensures pTail == At(RemoveAt(nodes, k), |nodes| - 2)
    {
      assert nodes[k].pLast == At(nodes, k - 1);
      ghost var a, b := nodes, RemoveAt(nodes, k);
      if pEvent.pNext != null {
        pEvent.pNext.pLast := pEvent.pLast;
      } else {
        pTail := pEvent.pLast;
      }
      pEvent.pLast := null;
      pEvent.pNext := null;
      forall i | 0 <= i < |b|
        ensures b[i].pLast == At(b, i - 1)
      {
        var j := if i < k then i else i + 1;
        assert b[i] == a[j] && old(a[j].pLast) == At(a, j - 1);
        if j == k + 1 {
          assert At(b, i - 1) == At(a, k - 1);
        } else {
          assert k + 1 < |a| ==> a[j] != a[k + 1];
          assert At(b, i - 1) == At(a, j - 1);
        }
      }
    }

    ghost method Accept(k: nat)
      requires k < |nodes| == |contents| && Within(nodes, repr) && Holds(nodes, repr, contents)
      requires var rest := RemoveAt(nodes, k);
               && Distinct(rest) && nodes[k] !in rest
               && Within(rest, repr) && Forward(rest, repr) && Backward(rest, repr)
               && pHead == At(rest, 0) && (rest != [] ==> pTail == rest[|rest| - 1])
               && queueSize == |rest| % 0x1_0000
      modifies this`nodes, this`contents, this`repr
      ensures Valid() && nodes == RemoveAt(old(nodes), k) && contents == RemoveAt(old(contents), k)
      ensures repr == old(repr) - {old(nodes)[k]}
    {
      repr := repr - {nodes[k]};
      nodes, contents := RemoveAt(nodes, k), RemoveAt(contents, k);
    }

    /** removeEvent, for the event at position k of this queue. */
    method Remove(pEvent: Event, ghost k: nat)
      requires Valid() && k < |nodes| && pEvent == nodes[k]
      modifies this, repr`pNext, repr`pLast
      ensures Valid() && contents == RemoveAt(old(contents), k) && repr == old(repr) - {pEvent}
      ensures pEvent.pNext == null && pEvent.pLast == null
    {
      DistinctAfterRemove(nodes, k);
      assert nodes[k].pNext == At(nodes, k + 1);
      UnlinkForward(pEvent, k);
      UnlinkBackward(pEvent, k);
      CountOneLess(|nodes|);
      Accept(k);
    }

    /** Writing fields of the event at position k, other than its links. */
    method Change(pEvent: Event, ghost k: nat, data: EventData)
      requires Valid() && k < |nodes| && pEvent == nodes[k]
      modifies this`contents, pEvent`data
      ensures Valid() && contents == old(contents)[k := data] && pEvent.data == data
    {
      pEvent.data := data;
      contents := contents[k := data];
    }
  }
}
