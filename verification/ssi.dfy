/** The SSI master driver (bsp_Ssi.c): transaction validation, the queue
    of pending transactions behind the one in progress, and the receive
    path of the interrupt handler, which throws away the bytes clocked in
    while the command was going out and stores the rest, backwards for a
    reversed read.

    The transaction in progress is a copy held by the driver; pending ones
    are caller-owned records linked through their nextPtr, kept as in I2c.
    The data register is modelled by the bytes the receive FIFO holds. */
module Ssi {
  import opened Bytes
  import opened Wrappers
  import Q = I2c
  import D = PwrMonDev

  datatype TransType = Write | WriteRead

  /** The fields of bsp_Ssi_MasterTrans_t the driver reads. */
  datatype Trans = Trans(kind: TransType, rReverse: bool, sLen: int, rLen: nat, wLen: nat,
                         hasRBuffer: bool, hasWBuffer: bool, hasCallback: bool)

  /** The checks of bsp_Ssi_masterTransQueue. */
  predicate Acceptable(t: Trans) {
    && t.wLen != 0 && t.hasWBuffer && t.hasCallback
    && !(t.kind == WriteRead && !t.hasRBuffer)
    && t.rLen <= t.wLen
  }

  /** bsp_Ssi_masterTransStart: the bytes to skip are those written before
      the reply begins. */
  function Start(t: Trans): (r: Trans)
    requires Acceptable(t)
    ensures Acceptable(r) && r.sLen == t.wLen - t.rLen && r.sLen + r.rLen == r.wLen
    ensures r.(sLen := t.sLen) == t
  {
    t.(sLen := t.wLen - t.rLen)
  }

  /** The driver state of one SSI block: the transaction in progress (the
      copy whose nextPtr is non-NULL) and the pending queue. */
  datatype Engine = Engine(active: Option<Trans>, q: Q.Queue)

  /** Nothing waits while the engine is idle. */
  predicate Inv(e: Engine) {
    Q.Wf(e.q) && (e.active.None? ==> e.q.head.None?)
  }

  const IDLE: Engine := Engine(None, Q.EMPTY)

  /** The outcome of queueing: the engine, the transaction started, and
      whether the interrupt state was restored on the way out. */
  datatype Queued = Queued(e: Engine, started: Option<Trans>, intsRestored: bool)

  /** bsp_Ssi_masterTransQueue as written: nextPtr is cleared; a rejected
      transaction returns from inside the critical section, so interrupts
      stay masked; an idle engine copies and starts the transaction; a busy
      one links the record after the tail and moves the tail to it. */
  function EnqueueAsWritten(e: Engine, t: Q.Id, rec: Trans): (r: Queued)
    requires Inv(e)
    ensures Inv(r.e)
    ensures r.intsRestored <==> Acceptable(rec)
    ensures r.started.Some? <==> Acceptable(rec) && e.active.None?
    ensures r.started.Some? ==> r.started == r.e.active && r.started.value == Start(rec)
    ensures e.active.Some? ==> r.e.active == e.active
  {
    var q1 := e.q.(next := e.q.next[t := None]);
    if !Acceptable(rec) then Queued(e.(q := q1), None, false)
    else if e.active.None? then Queued(Engine(Some(Start(rec)), q1), Some(Start(rec)), true)
    else if q1.head.None? then Queued(e.(q := q1.(head := Some(t), tail := Some(t))), None, true)
    else Queued(e.(q := q1.(next := q1.next[q1.tail.value := Some(t)], tail := Some(t))), None, true)
  }

  /** The same with the interrupt state restored on every path. */
  function Enqueue(e: Engine, t: Q.Id, rec: Trans): (r: Queued)
    requires Inv(e)
    ensures Inv(r.e) && r.intsRestored
    ensures r.e == EnqueueAsWritten(e, t, rec).e && r.started == EnqueueAsWritten(e, t, rec).started
  {
    EnqueueAsWritten(e, t, rec).(intsRestored := true)
  }

  /** bsp_Ssi_transComplete: after the callback, the head of the queue (if
      any) is copied into the active slot, unlinked and started; otherwise
      the engine goes idle. recs holds the pending records' contents. */
  function Complete(e: Engine, recs: map<Q.Id, Trans>): (r: (Engine, Option<Trans>))
    requires Inv(e) && e.active.Some?
    requires e.q.head.Some? ==> e.q.head.value in recs && Acceptable(recs[e.q.head.value])
    ensures Inv(r.0) && r.1 == r.0.active
    ensures e.q.head.None? ==> r.0 == IDLE.(q := e.q)
    ensures e.q.head.Some? ==> r.1 == Some(Start(recs[e.q.head.value]))
  {
    match e.q.head
    case None => (Engine(None, e.q), None)
    case Some(h) =>
      var nh := Q.Next(e.q, h);
      var q1 := e.q.(head := nh, tail := if nh.None? then None else e.q.tail);
      var a := Start(recs[h]);
      (Engine(Some(a), q1), Some(a))
  }

  /** Queueing onto a busy engine appends to the pending FIFO; onto an
      idle one it starts at once. */
  lemma EnqueueFifo(e: Engine, xs: seq<Q.Id>, t: Q.Id, rec: Trans)
    requires Inv(e) && Q.Holds(e.q, xs) && t !in xs && Acceptable(rec)
    ensures var r := Enqueue(e, t, rec);
            && (e.active.None? ==> r.started == Some(Start(rec)) && Q.Holds(r.e.q, xs))
            && (e.active.Some? ==> r.started.None? && Q.Holds(r.e.q, xs + [t]))
  {
    var r := Enqueue(e, t, rec);
    if e.active.Some? && xs != [] {
      var ys := xs + [t];
      forall i | 0 <= i < |ys| - 1
        ensures Q.Next(r.e.q, ys[i]) == Some(ys[i + 1])
      {
        if i < |xs| - 1 {
          assert ys[i] == xs[i] && ys[i + 1] == xs[i + 1];
        }
      }
    }
  }

  /** Completion starts the oldest pending transaction, or idles. */
  lemma CompleteFifo(e: Engine, xs: seq<Q.Id>, recs: map<Q.Id, Trans>)
    requires Inv(e) && e.active.Some? && Q.Holds(e.q, xs)
    requires forall i :: 0 <= i < |xs| ==> xs[i] in recs && Acceptable(recs[xs[i]])
    ensures var r := Complete(e, recs);
            && (xs == [] ==> r.0.active.None?)
            && (xs != [] ==> r.1 == Some(Start(recs[xs[0]])) && Q.Holds(r.0.q, xs[1..]))
  {
    if xs != [] {
      var r := Complete(e, recs).0;
      if |xs| > 1 {
        assert Q.Next(e.q, xs[0]) == Some(xs[1]);
      }
      forall i | 0 <= i < |xs[1..]| - 1
        ensures Q.Next(r.q, xs[1..][i]) == Some(xs[1..][i + 1])
      {
        assert xs[1..][i] == xs[i + 1];
      }
    }
  }

  /** A rejected transaction leaves interrupts masked as written. */
  lemma RejectedLeavesInterruptsMasked(e: Engine, t: Q.Id, rec: Trans)
    requires Inv(e) && rec.wLen == 0
    ensures !EnqueueAsWritten(e, t, rec).intsRestored && EnqueueAsWritten(e, t, rec).started.None?
    ensures Enqueue(e, t, rec).intsRestored
  {
  }

  // ---------------------------------------------------------------------
  // Sending

  /** bsp_Ssi_masterTxFifoFill: bytes are pushed while some remain and the
      transmit FIFO is not full. The result is (sent, still to send). */
  function TxFill(wLen: nat, room: nat): (r: (nat, nat))
    ensures r.0 + r.1 == wLen && r.0 <= room
    ensures r.1 > 0 ==> r.0 == room
  {
    if wLen <= room then (wLen, 0) else (room, wLen - room)
  }

  /** The remaining write length after the start fill and k - 1 refills,
      each with room FIFO slots free. */
  function AfterFills(wLen: nat, room: nat, k: nat): nat {
    if k == 0 then wLen else AfterFills(TxFill(wLen, room).1, room, k - 1)
  }

  /** Every TXEOT interrupt that finds bytes left refills the FIFO, so a
      transaction of wLen bytes is fully sent after ceil(wLen / room)
      fills and then completes. */
  lemma {:induction false} FillsDrain(wLen: nat, room: nat, k: nat)
    requires 0 < room && wLen <= k * room
    ensures AfterFills(wLen, room, k) == 0
  {
    if k > 0 {
      var rest := TxFill(wLen, room).1;
      assert rest <= (k - 1) * room;
      FillsDrain(rest, room, k - 1);
    }
  }

  // ---------------------------------------------------------------------
  // Receiving

  /** The TXEOT branch of bsp_Ssi_isrCommon for a transaction with a read
      buffer: sLen bytes are taken from the receive FIFO and dropped, then
      rLen bytes are stored, stepping through the buffer forwards, or from
      its last byte backwards when rReverse is set. The FIFO is assumed to
      hold every byte clocked in. */
  method Receive(rx: seq<u8>, sLen: nat, rLen: nat, rev: bool) returns (buf: seq<u8>)
    requires sLen + rLen <= |rx|
    ensures |buf| == rLen
    ensures !rev ==> buf == rx[sLen..sLen + rLen]
    ensures rev ==> forall i :: 0 <= i < rLen ==> buf[i] == rx[sLen + rLen - 1 - i]
  {
    var k := 0;
    var s := sLen;
    while s > 0
      invariant k + s == sLen
    {
      k := k + 1;
      s := s - 1;
    }
    buf := seq(rLen, _ => 0);
    var pos: int := if rev then rLen - 1 else 0;
    var n := 0;
    while n < rLen
      invariant 0 <= n <= rLen && k == sLen + n && |buf| == rLen
      invariant pos == if rev then rLen - 1 - n else n
      invariant !rev ==> forall i :: 0 <= i < n ==> buf[i] == rx[sLen + i]
      invariant rev ==> forall i :: rLen - n <= i < rLen ==> buf[i] == rx[sLen + rLen - 1 - i]
    {
      buf := buf[pos := rx[k]];
      pos := if rev then pos - 1 else pos + 1;
      k := k + 1;
      n := n + 1;
    }
  }

  /** The n-byte big-endian image of x: the order an INA239 sends a
      register in. */
  function BE(x: nat, n: nat): (r: seq<u8>)
    requires x < Pow256(n)
    ensures |r| == n && forall i :: 0 <= i < n ==> r[i] == LE(x, n)[n - 1 - i]
  {
    seq(n, i requires 0 <= i < n => LE(x, n)[n - 1 - i])
  }

  /** An INA239 register read: the driver's transaction (one command byte
      then regLen zero bytes, regLen bytes read reversed) and a device that
      answers the command byte with anything and then the register
      most-significant byte first. The buffer ends up holding the register
      least-significant byte first: its little-endian value is the
      register's. */
  method SsiRegisterRead(c: D.Ctx, regId: u8, regLen: u8, echo: u8, value: nat) returns (buf: seq<u8>)
    requires D.ValidCtx(c) && regLen < D.WBUF_SIZE && value < Pow256(regLen)
    ensures FromLE(buf) == value
  {
    var t := D.SsiRegRead(c, regId, regLen).1;
    var tr := Start(Trans(WriteRead, t.rReverse, 0, t.rLen, |t.wBuf|, true, true, true));
    var rx := [echo] + BE(value, regLen);
    buf := Receive(rx, tr.sLen, tr.rLen, tr.rReverse);
    assert buf == LE(value, regLen as nat) by {
      forall i | 0 <= i < regLen as int
        ensures buf[i] == LE(value, regLen as nat)[i]
      {
        assert buf[i] == rx[1 + regLen - 1 - i];
      }
    }
    FromLEOfLE(value, regLen as nat);
  }
}
