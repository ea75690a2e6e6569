/** The messages kept for two frequencies between reports (spectral/spectraldemo.c:107-263). */
module SampRing {

  import opened Wrappers

  /** MAX_SAMP_SAVED */
  const CAPACITY: nat := 5

  datatype Message = Message(freq: int, powers: seq<int>, rssi: int)

  // ----- A bounded queue that drops what does not fit -----

  type Queue = seq<Message>

  function Saved(q: Queue, m: Message): Queue {
    if |q| == CAPACITY then q else q + [m]
  }

  function Rest(q: Queue): Queue {
    if q == [] then [] else q[1..]
  }

  function First(q: Queue): Option<Message> {
    if q == [] then None else Some(q[0])
  }

  // ----- One ring -----

  /** A position of the ring: both sentinels of the send index stand for slot 0, and so does the
      save index one past the end. */
  function Slot(index: int): (k: nat)
    requires -1 <= index <= CAPACITY
    ensures k < CAPACITY
  {
    if index == -1 || index == CAPACITY then 0 else index
  }

  function Around(start: nat, i: nat): (k: nat)
    requires start < CAPACITY && i <= CAPACITY
    ensures k < CAPACITY
  {
    if start + i < CAPACITY then start + i else start + i - CAPACITY
  }

  class Ring {
    var freq: int
    var curSendIndex: int
    var curSaveIndex: int
    var countSaved: int
    const slots: array<Message>

    /** The send index is -1 before the first message and CAPACITY once the last slot was sent
        with nothing in slot 0; the save index is CAPACITY while all slots from 0 on are full. */
    ghost predicate Valid()
      reads this, slots
    {
      && slots.Length == CAPACITY
      && 0 <= countSaved <= CAPACITY
      && -1 <= curSendIndex <= CAPACITY
      && 0 <= curSaveIndex <= CAPACITY
      && (curSendIndex == -1 || curSendIndex == CAPACITY ==> countSaved == 0 && curSaveIndex == 0)
      && (curSaveIndex == CAPACITY ==> curSendIndex == 0 && countSaved == CAPACITY)
      && Slot(curSaveIndex) == Around(Slot(curSendIndex), countSaved)
    }

    ghost function Waiting(): (q: Queue)
      requires Valid()
      reads this, slots
      ensures |q| == countSaved
    {
      seq(countSaved, i requires 0 <= i < countSaved reads this, slots requires Valid() => slots[Around(Slot(curSendIndex), i)])
    }

    constructor ()
      ensures fresh(slots) && slots.Length == CAPACITY
    {
      slots := new Message[CAPACITY];
    }

    method Clear(freq: int)
      requires slots.Length == CAPACITY
      modifies this
      ensures Valid() && Waiting() == [] && this.freq == freq
    {
      this.freq := freq;
      curSendIndex, curSaveIndex, countSaved := -1, 0, 0;
    }

    method Save(m: Message)
      requires Valid()
      modifies this, slots
      ensures Valid() && Waiting() == Saved(old(Waiting()), m) && freq == old(freq)
    {
      if countSaved == CAPACITY {
        return;
      }
      countSaved := countSaved + 1;
      slots[curSaveIndex] := m;
      if curSendIndex == -1 {
        curSendIndex := curSaveIndex;
      }
      curSaveIndex := curSaveIndex + 1;
      if curSendIndex == CAPACITY {
        curSendIndex := 0;
      }
      if curSaveIndex == CAPACITY && curSendIndex != 0 {
        curSaveIndex := 0;
      }
    }

    method Send() returns (m: Option<Message>)
      requires Valid()
      modifies this
      ensures Valid() && Waiting() == Rest(old(Waiting())) && freq == old(freq)
      ensures m == First(old(Waiting()))
    {
      if curSendIndex == -1 || countSaved == 0 {
        return None;
      }
      countSaved := countSaved - 1;
      m := Some(slots[curSendIndex]);
      curSendIndex := curSendIndex + 1;
      if curSaveIndex == CAPACITY {
        curSaveIndex := 0;
      }
      if curSendIndex == CAPACITY && curSaveIndex != 0 {
        curSendIndex := 0;
      }
    }
  }

  // ----- Both frequencies -----

  /** The frequencies of the table, in its order. */
  const FREQUENCIES: seq<int> := [2422, 2462]

  function Index(freq: int): (k: nat)
    ensures k <= |FREQUENCIES|
    ensures k < |FREQUENCIES| ==> FREQUENCIES[k] == freq
    ensures k == |FREQUENCIES| ==> freq !in FREQUENCIES
  {
    if freq == FREQUENCIES[0] then 0 else if freq == FREQUENCIES[1] then 1 else 2
  }

  datatype Op = Save(freq: int, message: Message) | Send(freq: int)

  /** What one call does to the queue of the k-th frequency. */
  function Step(q: Queue, op: Op, k: nat): (after: Queue)
    ensures |q| <= CAPACITY ==> |after| <= CAPACITY
  {
    if Index(op.freq) != k then q else
    match op
    case Save(_, m) => Saved(q, m)
    case Send(_) => Rest(q)
  }

  function Output(q: Queue, op: Op, k: nat): (out: seq<Message>) {
    if op.Send? && Index(op.freq) == k && q != [] then [q[0]] else []
  }

  class SavedMessages {
    const rings: seq<Ring>

    ghost predicate Valid()
      reads this, rings, set r | r in rings :: r.slots
    {
      && |rings| == |FREQUENCIES| == 2
      && rings[0] != rings[1] && rings[0].slots != rings[1].slots
      && (forall k :: 0 <= k < 2 ==> rings[k].Valid() && rings[k].freq == FREQUENCIES[k])
    }

    constructor ()
      ensures Valid() && rings[0].Waiting() == [] && rings[1].Waiting() == []
      ensures fresh(rings) && fresh(rings[0].slots) && fresh(rings[1].slots)
    {
      var low := new Ring();
      low.Clear(FREQUENCIES[0]);
      var high := new Ring();
      high.Clear(FREQUENCIES[1]);
      rings := [low, high];
    }

    /** clear_saved_samp_msgs: a run starts anew. */
    method ClearAll()
      requires Valid()
      modifies rings
      ensures Valid() && forall k :: 0 <= k < 2 ==> rings[k].Waiting() == []
    {
      hide Ring.Waiting;
      rings[0].Clear(FREQUENCIES[0]);
      rings[1].Clear(FREQUENCIES[1]);
    }

    method Find(freq: int) returns (k: nat)
      requires Valid()
      ensures k == Index(freq)
    {
      for i := 0 to |rings|
        invariant freq !in FREQUENCIES[..i]
      {
        if rings[i].freq == freq {
          return i;
        }
      }
      return |rings|;
    }

    /** save_this_samp_msg */
    method SaveMessage(freq: int, m: Message)
      requires Valid()
      modifies rings, set r | r in rings :: r.slots
      ensures Valid()
      ensures forall k :: 0 <= k < 2 ==> rings[k].Waiting() == Step(old(rings[k].Waiting()), Save(freq, m), k)
    {
      hide Ring.Valid, Ring.Waiting;
      var k := Find(freq);
      if k < |rings| {
        rings[k].Save(m);
      }
    }

    /** send_saved_samp_msg */
    method SendMessage(freq: int) returns (m: Option<Message>)
      requires Valid()
      modifies rings, set r | r in rings :: r.slots
      ensures Valid()
      ensures forall k :: 0 <= k < 2 ==> rings[k].Waiting() == Step(old(rings[k].Waiting()), Send(freq), k)
      ensures m == if Index(freq) < 2 then First(old(rings[Index(freq)].Waiting())) else None
    {
      hide Ring.Valid, Ring.Waiting;
      var k := Find(freq);
      m := None;
      if k < |rings| {
        m := rings[k].Send();
      }
    }
  }

  // ----- Whole runs -----

  function Run(ops: seq<Op>, k: nat): (q: Queue)
    ensures |q| <= CAPACITY
  {
    if ops == [] then [] else Step(Run(ops[..|ops| - 1], k), ops[|ops| - 1], k)
  }

  function Delivered(ops: seq<Op>, k: nat): seq<Message> {
    if ops == [] then []
    else Delivered(ops[..|ops| - 1], k) + Output(Run(ops[..|ops| - 1], k), ops[|ops| - 1], k)
  }

  /** Bookkeeping without any queue: which messages of a frequency were accepted, and how many
      requests to send have been answered. */
  datatype Ledger = Ledger(accepted: seq<Message>, sent: nat)

  function Booked(l: Ledger, op: Op, k: nat): Ledger {
    if Index(op.freq) != k then l
    else if op.Save? && |l.accepted| < l.sent + CAPACITY then l.(accepted := l.accepted + [op.message])
    else if op.Send? && l.sent < |l.accepted| then l.(sent := l.sent + 1)
    else l
  }

  function Kept(ops: seq<Op>, k: nat): (l: Ledger)
    ensures l.sent <= |l.accepted| <= l.sent + CAPACITY
  {
    if ops == [] then Ledger([], 0) else Booked(Kept(ops[..|ops| - 1], k), ops[|ops| - 1], k)
  }

  lemma OneCall(q: Queue, l: Ledger, op: Op, k: nat)
    requires l.sent <= |l.accepted| <= l.sent + CAPACITY && q == l.accepted[l.sent..]
    ensures var m := Booked(l, op, k);
            && m.sent <= |m.accepted|
            && Step(q, op, k) == m.accepted[m.sent..]
            && l.accepted[..l.sent] + Output(q, op, k) == m.accepted[..m.sent]
  {
    hide Index;
  }

  /** Over any interleaving of calls, the messages of a frequency leave in the order in which they
      were accepted, none lost and none twice, and the rest of them is what waits. */
  lemma {:induction false} FirstInFirstOut(ops: seq<Op>, k: nat)
    ensures Delivered(ops, k) == Kept(ops, k).accepted[..Kept(ops, k).sent]
    ensures Run(ops, k) == Kept(ops, k).accepted[Kept(ops, k).sent..]
  {
    if ops != [] {
      hide Index;
      var before, op := ops[..|ops| - 1], ops[|ops| - 1];
      FirstInFirstOut(before, k);
      assert Kept(ops, k) == Booked(Kept(before, k), op, k);
      OneCall(Run(before, k), Kept(before, k), op, k);
    }
  }

  /** The messages offered for a frequency. */
  function Offered(ops: seq<Op>, k: nat): seq<Message> {
    if ops == [] then []
    else
      var op := ops[|ops| - 1];
      Offered(ops[..|ops| - 1], k) + if op.Save? && Index(op.freq) == k then [op.message] else []
  }

  /** A call that offers a message of the k-th frequency while its ring is full. */
  predicate Dropped(ops: seq<Op>, n: nat, k: nat)
    requires n < |ops|
  {
    ops[n].Save? && Index(ops[n].freq) == k && |Run(ops[..n], k)| == CAPACITY
  }

  /** Every message offered is accepted, if and only if none comes while the ring is full. */
  lemma {:induction false} DroppedOnlyWhenFull(ops: seq<Op>, k: nat)
    ensures Kept(ops, k).accepted == Offered(ops, k) <==>
            forall n :: 0 <= n < |ops| ==> !Dropped(ops, n, k)
  {
    if ops != [] {
      hide Dropped, Kept, Offered;
      DroppedOnlyWhenFull(ops[..|ops| - 1], k);
      LastCall(ops, k);
      DropsSplit(ops, k);
    }
  }

  lemma DropsSplit(ops: seq<Op>, k: nat)
    requires ops != []
    ensures var before := ops[..|ops| - 1];
            (forall n :: 0 <= n < |ops| ==> !Dropped(ops, n, k)) <==>
            (forall n :: 0 <= n < |before| ==> !Dropped(before, n, k)) && !Dropped(ops, |ops| - 1, k)
  {
    hide Dropped;
    var before := ops[..|ops| - 1];
    forall n | 0 <= n < |before| ensures Dropped(before, n, k) == Dropped(ops, n, k) {
      SameBefore(ops, n, k);
    }
    if forall n :: 0 <= n < |ops| ==> !Dropped(ops, n, k) {
      forall n | 0 <= n < |before| ensures !Dropped(before, n, k) {
        assert !Dropped(ops, n, k);
      }
    }
    if (forall n :: 0 <= n < |before| ==> !Dropped(before, n, k)) && !Dropped(ops, |ops| - 1, k) {
      forall n | 0 <= n < |ops| ensures !Dropped(ops, n, k) {
        if n < |before| {
          assert !Dropped(before, n, k);
        }
      }
    }
  }

  lemma SameBefore(ops: seq<Op>, n: nat, k: nat)
    requires n < |ops| - 1
    ensures Dropped(ops[..|ops| - 1], n, k) == Dropped(ops, n, k)
  {
    hide Run;
    assert ops[..|ops| - 1][..n] == ops[..n];
  }

  lemma LastCall(ops: seq<Op>, k: nat)
    requires ops != []
    ensures var n := |ops| - 1;
            Kept(ops, k).accepted == Offered(ops, k) <==>
            Kept(ops[..n], k).accepted == Offered(ops[..n], k) && !Dropped(ops, n, k)
  {
    hide Run, Index;
    var before, op := ops[..|ops| - 1], ops[|ops| - 1];
    FirstInFirstOut(before, k);
    NeverMoreThanOffered(before, k);
    var a, o := Kept(before, k).accepted, Offered(before, k);
    if op.Save? && Index(op.freq) == k {
      assert (a + [op.message])[..|a|] == a && (o + [op.message])[..|o|] == o;
    }
  }

  lemma NeverMoreThanOffered(ops: seq<Op>, k: nat)
    ensures |Kept(ops, k).accepted| <= |Offered(ops, k)|
  {
  }

  /** Of six messages for a frequency that come in a row, the first five wait and the sixth is lost. */
  lemma SixthIsLost(a: Message, b: Message, c: Message, d: Message, e: Message, f: Message)
    ensures Saved(Saved(Saved(Saved(Saved(Saved([], a), b), c), d), e), f) == [a, b, c, d, e]
    ensures Index(2422) == 0 && Index(2462) == 1
  {
  }
}
