/** The I2C master driver (bsp_I2c.c): the queue of pending transactions,
    kept as a linked list of caller-owned records with a head and a tail
    pointer, and the byte-by-byte command sequence the interrupt handler
    issues for the transaction at the head.

    Records are named by an identity (their address); the queue owns only
    their nextPtr fields, kept as a map. The data register and the master
    control register are effects: the byte offsets moved through the data
    register and the commands written. */
module I2c {
  import opened Wrappers
  import opened Bytes

  /** size_t: the transaction length wraps below zero. */
  const SIZE_MOD: nat := 0x1_0000_0000

  type Id = nat

  datatype TransType = Write | Read | WriteRead

  /** The fields of bsp_I2c_MasterTrans_t the driver reads: the type, the
      bytes still to move, whether a buffer was given, and how far the
      buffer pointer has advanced. */
  datatype Record = Record(kind: TransType, len: u32, hasBuffer: bool, pos: nat)

  /** The I2C_MASTER_CMD_* values written to the control register. */
  datatype Cmd =
    | SingleSend | BurstSendStart | BurstSendCont | BurstSendFinish
    | SingleReceive | BurstReceiveStart | BurstReceiveCont | BurstReceiveFinish

  /** A byte moved through the data register, by buffer offset. */
  datatype Xfer = Sent(off: nat) | Received(off: nat)

  // ---------------------------------------------------------------------
  // The byte machine

  /** BSP_I2C_NEXT_BYTE_SEND / _RCV: the buffer pointer moves on one byte
      and len, a size_t, goes down by one. */
  function Advance(r: Record): (r1: Record)
    ensures r1.pos == r.pos + 1 && r1.kind == r.kind && r1.hasBuffer == r.hasBuffer
    ensures r.len > 0 ==> r1.len == r.len - 1
    ensures r.len == 0 ==> r1.len == SIZE_MOD - 1
  {
    r.(pos := r.pos + 1, len := (r.len + SIZE_MOD - 1) % SIZE_MOD)
  }

  /** bsp_I2c_masterTransStart: a read only issues its start command (a
      single receive for one byte); anything else puts its first byte and
      issues a single send when that was the only one. */
  function Start(r: Record): (res: (Record, seq<Xfer>, Cmd))
    ensures r.kind == Read ==> res.0 == r && res.1 == []
    ensures r.kind == Read ==> (res.2 == SingleReceive <==> r.len == 1)
    ensures r.kind == Read && r.len != 1 ==> res.2 == BurstReceiveStart
    ensures r.kind != Read && r.len > 0 ==>
              && res.1 == [Sent(r.pos)] && res.0.len == r.len - 1
              && (res.2 == SingleSend <==> r.len == 1)
              && (r.len != 1 ==> res.2 == BurstSendStart)
  {
    if r.kind == Read then
      (r, [], if r.len == 1 then SingleReceive else BurstReceiveStart)
    else
      var r1 := Advance(r);
      (r1, [Sent(r.pos)], if r1.len == 0 then SingleSend else BurstSendStart)
  }

  /** The BUSBSY branch of bsp_I2c_isrMasterCommon: a read takes the byte
      received and continues while more than one remains; a write puts the
      next byte and continues while any remains. */
  function BusyStep(r: Record): (res: (Record, Xfer, Cmd))
    requires 0 < r.len
    ensures res.0 == Advance(r)
    ensures r.kind == Read ==> res.1 == Received(r.pos) && (res.2 == BurstReceiveFinish <==> r.len <= 2)
    ensures r.kind == Read && r.len > 2 ==> res.2 == BurstReceiveCont
    ensures r.kind != Read ==> res.1 == Sent(r.pos) && (res.2 == BurstSendFinish <==> r.len == 1)
    ensures r.kind != Read && r.len > 1 ==> res.2 == BurstSendCont
  {
    var r1 := Advance(r);
    if r.kind == Read then
      (r1, Received(r.pos), if r1.len > 1 then BurstReceiveCont else BurstReceiveFinish)
    else
      (r1, Sent(r.pos), if r1.len > 0 then BurstSendCont else BurstSendFinish)
  }

  /** k busy interrupts in a row. */
  function RunBusy(r: Record, k: nat): (res: (Record, seq<Xfer>, seq<Cmd>))
    requires k <= r.len
    decreases k
  {
    if k == 0 then (r, [], [])
    else
      var (r1, x, c) := BusyStep(r);
      var (r2, xs, cs) := RunBusy(r1, k - 1);
      (r2, [x] + xs, [c] + cs)
  }

  /** The IDLE branch takes the final byte of a read. */
  function IdleReceive(r: Record): (res: (Record, seq<Xfer>))
    ensures r.kind == Read ==> res == (Advance(r), [Received(r.pos)])
    ensures r.kind != Read ==> res == (r, [])
  {
    if r.kind == Read then (Advance(r), [Received(r.pos)]) else (r, [])
  }

  /** The offsets from..from+n-1 as sends or receives. */
  function Sends(from: nat, n: nat): (r: seq<Xfer>)
    ensures |r| == n && forall i :: 0 <= i < n ==> r[i] == Sent(from + i)
    decreases n
  {
    if n == 0 then [] else [Sent(from)] + Sends(from + 1, n - 1)
  }

  function Receives(from: nat, n: nat): (r: seq<Xfer>)
    ensures |r| == n && forall i :: 0 <= i < n ==> r[i] == Received(from + i)
    decreases n
  {
    if n == 0 then [] else [Received(from)] + Receives(from + 1, n - 1)
  }

  function Repeat(c: Cmd, n: nat): (r: seq<Cmd>)
    ensures |r| == n && forall i :: 0 <= i < n ==> r[i] == c
    decreases n
  {
    if n == 0 then [] else [c] + Repeat(c, n - 1)
  }

  /** The busy interrupts that drain a write: every remaining byte is sent
      in order, the last one with FINISH. */
  lemma {:induction false} BusyWriteDrains(r: Record)
    requires r.kind != Read && 0 < r.len
    ensures var (r1, xs, cs) := RunBusy(r, r.len);
            && r1.len == 0 && r1.pos == r.pos + r.len
            && xs == Sends(r.pos, r.len)
            && cs == Repeat(BurstSendCont, r.len - 1) + [BurstSendFinish]
    decreases r.len
  {
    var (r1, x, c) := BusyStep(r);
    if r.len > 1 {
      BusyWriteDrains(r1);
      assert Repeat(BurstSendCont, r.len - 1) == [BurstSendCont] + Repeat(BurstSendCont, r.len - 2);
    }
  }

  /** The busy interrupts of a read of n > 1 bytes: all but the last are
      received in order, and the last busy step asks for FINISH. */
  lemma {:induction false} BusyReadDrains(r: Record)
    requires r.kind == Read && 1 < r.len
    ensures var (r1, xs, cs) := RunBusy(r, r.len - 1);
            && r1.len == 1 && r1.pos == r.pos + r.len - 1 && r1.kind == Read
            && xs == Receives(r.pos, r.len - 1)
            && cs == Repeat(BurstReceiveCont, r.len - 2) + [BurstReceiveFinish]
    decreases r.len
  {
    var (r1, x, c) := BusyStep(r);
    if r.len > 2 {
      BusyReadDrains(r1);
      assert Repeat(BurstReceiveCont, r.len - 2) == [BurstReceiveCont] + Repeat(BurstReceiveCont, r.len - 3);
    }
  }

  /** A whole write of n bytes: start, n - 1 busy interrupts. The bytes go
      out in buffer order, the first with SINGLE_SEND when it is the only
      one, else with BURST_SEND_START, and the last with FINISH. */
  lemma WriteTransfer(r: Record)
    requires r.kind != Read && 0 < r.len
    ensures var (r1, x0, c0) := Start(r);
            var (r2, xs, cs) := RunBusy(r1, r1.len);
            && x0 + xs == Sends(r.pos, r.len) && r2.len == 0
            && (r.len == 1 ==> [c0] + cs == [SingleSend])
            && (r.len > 1 ==> [c0] + cs == [BurstSendStart] + Repeat(BurstSendCont, r.len - 2) + [BurstSendFinish])
  {
    var (r1, x0, c0) := Start(r);
    if r1.len > 0 {
      BusyWriteDrains(r1);
    }
  }

  /** A whole read of n bytes: start, n - 1 busy interrupts, then the
      IDLE interrupt, which takes the last byte. Every byte is received in
      buffer order. */
  lemma ReadTransfer(r: Record)
    requires r.kind == Read && 0 < r.len
    ensures var (r1, x0, c0) := Start(r);
            var (r2, xs, cs) := RunBusy(r1, r1.len - 1);
            var (r3, xl) := IdleReceive(r2);
            && x0 + xs + xl == Receives(r.pos, r.len) && r3.len == 0
            && (r.len == 1 ==> [c0] + cs == [SingleReceive])
            && (r.len > 1 ==> [c0] + cs == [BurstReceiveStart] + Repeat(BurstReceiveCont, r.len - 2) + [BurstReceiveFinish])
  {
    var (r1, x0, c0) := Start(r);
    if r.len > 1 {
      BusyReadDrains(r1);
      var (r2, xs, cs) := RunBusy(r1, r1.len - 1);
      var (r3, xl) := IdleReceive(r2);
      assert xl == [Received(r.pos + r.len - 1)];
      assert x0 + xs + xl == Receives(r.pos, r.len);
    } else {
      assert Receives(r.pos, 1) == [Received(r.pos)];
    }
  }

  // ---------------------------------------------------------------------
  // The transaction queue

  /** The driver's head and tail pointers and the nextPtr of every record
      it has touched. */
  datatype Queue = Queue(head: Option<Id>, tail: Option<Id>, next: map<Id, Option<Id>>)

  const EMPTY: Queue := Queue(None, None, map[])

  /** A record's nextPtr, NULL for a record the queue never touched. */
  function Next(q: Queue, t: Id): Option<Id> {
    if t in q.next then q.next[t] else None
  }

  /** The outcome of bsp_I2c_masterTransQueue: the queue, the transaction
      started (if any), and whether the interrupt state was restored on
      the way out. */
  datatype Queued = Queued(q: Queue, started: Option<Id>, intsRestored: bool)

  /** A valid transaction: a non-empty length and a buffer. */
  predicate Acceptable(rec: Record) {
    rec.len != 0 && rec.hasBuffer
  }

  /** Head and tail are set and cleared together. */
  predicate Wf(q: Queue) {
    q.head.None? <==> q.tail.None?
  }

  /** bsp_I2c_masterTransQueue as written: nextPtr is cleared first; a
      rejected transaction returns from inside the critical section, so
      interrupts stay masked; into a non-empty queue the record is linked
      after the tail, but the tail pointer is left where it was. */
  function EnqueueAsWritten(q: Queue, t: Id, rec: Record): (r: Queued)
    requires Wf(q)
    ensures Wf(r.q) && r.q.tail == (if q.head.None? && Acceptable(rec) then Some(t) else q.tail)
    ensures r.intsRestored <==> Acceptable(rec)
    ensures r.started == (if q.head.None? && Acceptable(rec) then Some(t) else None)
  {
    var q1 := q.(next := q.next[t := None]);
    if !Acceptable(rec) then Queued(q1, None, false)
    else if q1.head.None? then Queued(q1.(head := Some(t), tail := Some(t)), Some(t), true)
    else Queued(q1.(next := q1.next[q1.tail.value := Some(t)]), None, true)
  }

  /** bsp_I2c_masterTransQueue as evidently intended: the interrupt state
      is restored on every path, and the new record becomes the tail. */
  function Enqueue(q: Queue, t: Id, rec: Record): (r: Queued)
    requires Wf(q)
    ensures Wf(r.q) && r.intsRestored
    ensures Acceptable(rec) ==> r.q.tail == Some(t)
    ensures r.started == (if q.head.None? && Acceptable(rec) then Some(t) else None)
  {
    var q1 := q.(next := q.next[t := None]);
    if !Acceptable(rec) then Queued(q1, None, true)
    else if q1.head.None? then Queued(q1.(head := Some(t), tail := Some(t)), Some(t), true)
    else Queued(q1.(next := q1.next[q1.tail.value := Some(t)], tail := Some(t)), None, true)
  }

  /** The IDLE branch before the callback: a record whose nextPtr points
      at itself was re-queued by its owner and is unlinked from itself. */
  function ClearSelfLink(q: Queue): (r: Queue)
    requires q.head.Some?
    ensures r.head == q.head && r.tail == q.tail
    ensures Next(r, q.head.value) == (if Next(q, q.head.value) == Some(q.head.value) then None else Next(q, q.head.value))
    ensures forall u :: u != q.head.value ==> Next(r, u) == Next(q, u)
  {
    var t := q.head.value;
    if Next(q, t) == Some(t) then q.(next := q.next[t := None]) else q
  }

  /** The IDLE branch after the callback: the head is unlinked, the tail
      cleared when nothing follows, and the next transaction started. */
  function Pop(q: Queue): (r: (Queue, Option<Id>))
    requires q.head.Some? && Wf(q)
    ensures Wf(r.0) && r.0.head == Next(q, q.head.value) && r.1 == r.0.head
    ensures r.0.next == q.next
  {
    var h := Next(q, q.head.value);
    var q1 := q.(head := h, tail := if h.None? then None else q.tail);
    (q1, h)
  }

  /** The queue holds exactly xs, in order, linked head to tail. */
  predicate Holds(q: Queue, xs: seq<Id>) {
    && (forall i, j :: 0 <= i < j < |xs| ==> xs[i] != xs[j])
    && (xs == [] ==> q.head.None? && q.tail.None?)
    && (xs != [] ==>
          && q.head == Some(xs[0]) && q.tail == Some(xs[|xs| - 1])
          && Next(q, xs[|xs| - 1]) == None
          && forall i :: 0 <= i < |xs| - 1 ==> Next(q, xs[i]) == Some(xs[i + 1]))
  }

  /** The corrected queue is a FIFO: an accepted record joins the end and
      starts only when the queue was empty; a rejected one changes
      nothing. */
  lemma EnqueueAppends(q: Queue, xs: seq<Id>, t: Id, rec: Record)
    requires Holds(q, xs) && t !in xs
    ensures Wf(q)
    ensures Holds(Enqueue(q, t, rec).q, if Acceptable(rec) then xs + [t] else xs)
  {
    var r := Enqueue(q, t, rec).q;
    if Acceptable(rec) && xs != [] {
      var ys := xs + [t];
      forall i | 0 <= i < |ys| - 1
        ensures Next(r, ys[i]) == Some(ys[i + 1])
      {
        if i < |xs| - 1 {
          assert ys[i] == xs[i] && ys[i + 1] == xs[i + 1];
        }
      }
    }
  }

  /** Completing the head removes it and starts the one behind it. */
  lemma PopRemovesHead(q: Queue, xs: seq<Id>)
    requires Holds(q, xs) && xs != []
    ensures Wf(q)
    ensures Holds(Pop(ClearSelfLink(q)).0, xs[1..])
    ensures Pop(ClearSelfLink(q)).1 == if |xs| > 1 then Some(xs[1]) else None
  {
    var q1 := ClearSelfLink(q);
    if |xs| > 1 {
      assert Next(q, xs[0]) == Some(xs[1]);
    }
    var r := Pop(q1).0;
    forall i | 0 <= i < |xs[1..]| - 1
      ensures Next(r, xs[1..][i]) == Some(xs[1..][i + 1])
    {
      assert xs[1..][i] == xs[i + 1];
    }
  }

  /** The records reachable from the head, at most n of them. */
  function Chain(q: Queue, n: nat): (r: seq<Id>)
    ensures |r| <= n
  {
    Walk(q, q.head, n)
  }

  function Walk(q: Queue, from: Option<Id>, n: nat): (r: seq<Id>)
    ensures |r| <= n
    decreases n
  {
    if n == 0 || from.None? then [] else [from.value] + Walk(q, Next(q, from.value), n - 1)
  }

  /** As written, a record queued behind a transaction that has already
      completed is lost: queue A (it starts), queue B behind it, complete
      A (B starts, but the tail still names A), queue C: C is linked after
      A, so B is the last record the driver will ever run and C never
      starts. */
  lemma StaleTailLosesTransaction(rec: Record)
    requires Acceptable(rec)
    ensures var a := EnqueueAsWritten(EMPTY, 0, rec);
            var b := EnqueueAsWritten(a.q, 1, rec);
            var p := Pop(ClearSelfLink(b.q));
            var c := EnqueueAsWritten(p.0, 2, rec);
            && a.started == Some(0) && p.1 == Some(1) && c.started == None
            && Chain(c.q, 3) == [1]
  {
    var a := EnqueueAsWritten(EMPTY, 0, rec);
    var b := EnqueueAsWritten(a.q, 1, rec);
    var p := Pop(ClearSelfLink(b.q));
    var c := EnqueueAsWritten(p.0, 2, rec);
    assert Next(c.q, 1) == None;
    assert Walk(c.q, Some(1), 3) == [1] + Walk(c.q, None, 2);
  }

  /** The same three steps with the corrected queue keep C behind B. */
  lemma CorrectedQueueKeepsTransaction(rec: Record)
    requires Acceptable(rec)
    ensures var a := Enqueue(EMPTY, 0, rec);
            var b := Enqueue(a.q, 1, rec);
            var p := Pop(ClearSelfLink(b.q));
            var c := Enqueue(p.0, 2, rec);
            Holds(c.q, [1, 2])
  {
    EnqueueAppends(EMPTY, [], 0, rec);
    var a := Enqueue(EMPTY, 0, rec);
    EnqueueAppends(a.q, [0], 1, rec);
    var b := Enqueue(a.q, 1, rec);
    PopRemovesHead(b.q, [0, 1]);
    var p := Pop(ClearSelfLink(b.q));
    assert [0, 1][1..] == [1];
    EnqueueAppends(p.0, [1], 2, rec);
  }

  /** A rejected transaction leaves interrupts masked as written. */
  lemma RejectedLeavesInterruptsMasked(q: Queue, t: Id, rec: Record)
    requires Wf(q) && rec.len == 0
    ensures !EnqueueAsWritten(q, t, rec).intsRestored && EnqueueAsWritten(q, t, rec).started.None?
    ensures Enqueue(q, t, rec).intsRestored
  {
  }

  /** The owner of the running record may queue it again from its
      callback: the record links to itself and runs once more. */
  lemma RequeueFromCallbackRuns(t: Id, rec: Record)
    requires Acceptable(rec)
    ensures var q := EnqueueAsWritten(EMPTY, t, rec).q;
            var q1 := EnqueueAsWritten(ClearSelfLink(q), t, rec).q;
            Pop(q1).1 == Some(t)
  {
  }

  /** Queued again BEFORE it completes (as the INA228 init does with its
      two id reads, which share one record), the record is unlinked from
      itself at completion, and the second transaction never runs. */
  lemma RequeueBeforeCompletionIsDropped(t: Id, rec: Record)
    requires Acceptable(rec)
    ensures var q := EnqueueAsWritten(EMPTY, t, rec).q;
            var q1 := EnqueueAsWritten(q, t, rec).q;
            Next(q1, t) == Some(t) && Pop(ClearSelfLink(q1)).1 == None
  {
  }
}
