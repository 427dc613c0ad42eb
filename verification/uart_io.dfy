/** The UART stdio driver's circular buffers (bsp_UartIo.c).

    A buffer of size bytes is described by a write index and a read index;
    a read index equal to size marks the buffer empty, and equal indices
    otherwise mark it full. Writers and readers only ever see the
    contiguous stretch up to the end of the array, so a copy that wraps
    takes two steps. The receive and transmit buffers share the same
    index rules. */
module UartIo {
  import opened Bytes

  datatype Ring = Ring(size: nat, w: nat, r: nat)

  predicate Valid(g: Ring) {
    0 < g.size && g.w < g.size && g.r <= g.size
  }

  predicate Empty(g: Ring) { g.r == g.size }

  /** bsp_UartIo_init: write index 0, read index at the empty mark. */
  function Init(size: nat): (g: Ring)
    requires 0 < size
    ensures Valid(g) && Empty(g) && Count(g) == 0
  {
    Ring(size, 0, size)
  }

  /** The number of bytes held. */
  function Count(g: Ring): (n: nat)
    requires Valid(g)
    ensures n <= g.size
    ensures n == 0 <==> Empty(g)
    ensures n == g.size <==> !Empty(g) && g.w == g.r
  {
    if Empty(g) then 0
    else if g.w > g.r then g.w - g.r
    else g.w + g.size - g.r
  }

  function Free(g: Ring): nat
    requires Valid(g)
  {
    g.size - Count(g)
  }

  /** NUM_CONTIGUOUS_AVAIL: the free bytes from the write index on,
      without wrapping. */
  function ContigAvail(g: Ring): (n: nat)
    requires Valid(g)
    ensures n <= Free(g) && g.w + n <= g.size
    ensures n == 0 <==> Free(g) == 0
  {
    if g.w > g.r then g.size - g.w else g.r - g.w
  }

  /** NUM_CONTIGUOUS_DATA: the held bytes from the read index on, without
      wrapping. */
  function ContigData(g: Ring): (n: nat)
    requires Valid(g)
    ensures n <= Count(g)
    ensures !Empty(g) ==> g.r + n <= g.size
    ensures n == 0 <==> Count(g) == 0
  {
    if g.r >= g.w then g.size - g.r else g.w - g.r
  }

  /** BUFFER_WRITE: n bytes were placed at the write index. */
  function Write(g: Ring, n: nat): (g': Ring)
    requires Valid(g) && n <= ContigAvail(g)
    ensures Valid(g') && g'.size == g.size
    ensures Count(g') == Count(g) + n
  {
    if n == 0 then g
    else
      var r := if Empty(g) then g.w else g.r;
      var w := if g.w + n == g.size then 0 else g.w + n;
      Ring(g.size, w, r)
  }

  /** BUFFER_READ: n bytes were taken from the read index. */
  function Read(g: Ring, n: nat): (g': Ring)
    requires Valid(g) && n <= ContigData(g)
    ensures Valid(g') && g'.size == g.size
    ensures Count(g') == Count(g) - n
  {
    if n == 0 then g
    else
      var r0 := if g.r + n == g.size then 0 else g.r + n;
      Ring(g.size, g.w, if r0 == g.w then g.size else r0)
  }

  // ---------------------------------------------------------------------
  // Contents

  /** The array position of the i-th held byte. */
  function Pos(g: Ring, i: nat): (p: nat)
    requires Valid(g) && i < Count(g)
    ensures p < g.size
  {
    if g.r + i < g.size then g.r + i else g.r + i - g.size
  }

  /** The bytes held, oldest first, given the array's contents. */
  function Contents(g: Ring, a: seq<u8>): (s: seq<u8>)
    requires Valid(g) && |a| == g.size
    ensures |s| == Count(g)
  {
    seq(Count(g), i requires 0 <= i < Count(g) => a[Pos(g, i)])
  }

  /** The array after copying data to the write index. */
  function Put(g: Ring, a: seq<u8>, data: seq<u8>): (a': seq<u8>)
    requires Valid(g) && |a| == g.size && |data| <= ContigAvail(g)
    ensures |a'| == g.size
  {
    a[..g.w] + data + a[g.w + |data|..]
  }

  /** A contiguous write appends the bytes copied in to the held bytes. */
  lemma WriteAppends(g: Ring, a: seq<u8>, data: seq<u8>)
    requires Valid(g) && |a| == g.size && |data| <= ContigAvail(g)
    ensures Contents(Write(g, |data|), Put(g, a, data)) == Contents(g, a) + data
  {
    var g', a' := Write(g, |data|), Put(g, a, data);
    var old_ := Contents(g, a);
    if |data| > 0 {
      forall i | 0 <= i < Count(g')
        ensures Contents(g', a')[i] == (old_ + data)[i]
      {
        if i < Count(g) {
          assert Pos(g', i) == Pos(g, i);
          assert Pos(g, i) < g.w || g.w + |data| <= Pos(g, i);
        } else {
          assert Pos(g', i) == g.w + (i - Count(g));
        }
      }
    }
  }

  /** A contiguous read hands out the oldest bytes and drops them. */
  lemma ReadTakes(g: Ring, a: seq<u8>, n: nat)
    requires Valid(g) && |a| == g.size && n <= ContigData(g)
    ensures a[g.r..g.r + n] == Contents(g, a)[..n]
    ensures Contents(Read(g, n), a) == Contents(g, a)[n..]
  {
    var g' := Read(g, n);
    if n > 0 {
      forall i | 0 <= i < Count(g')
        ensures Pos(g', i) == Pos(g, n + i)
      {
      }
    }
  }

  // ---------------------------------------------------------------------
  // Client copies

  /** bsp_UartIo_bufferWrite's copy loop: contiguous chunks are copied
      until everything is in or the buffer is full; what does not fit is
      dropped and counted. */
  method BufferWrite(g: Ring, a: seq<u8>, data: seq<u8>, dropped: nat)
      returns (g': Ring, a': seq<u8>, numBuffered: nat, dropped': nat)
    requires Valid(g) && |a| == g.size
    ensures Valid(g') && |a'| == g'.size == g.size
    ensures numBuffered == if |data| <= Free(g) then |data| else Free(g)
    ensures Contents(g', a') == Contents(g, a) + data[..numBuffered]
    ensures dropped' == dropped + (|data| - numBuffered)
  {
    g', a', numBuffered, dropped' := g, a, 0, dropped;
    var overflow := false;
    while numBuffered < |data| && !overflow
      invariant Valid(g') && |a'| == g'.size == g.size
      invariant numBuffered <= |data| && numBuffered <= Free(g)
      invariant Count(g') == Count(g) + numBuffered
      invariant Contents(g', a') == Contents(g, a) + data[..numBuffered]
      invariant overflow ==> Free(g') == 0
      invariant dropped' == dropped + (if overflow then |data| - numBuffered else 0)
      decreases |data| - numBuffered, !overflow
    {
      var avail := ContigAvail(g');
      if avail == 0 {
        dropped' := dropped' + (|data| - numBuffered);
        overflow := true;
      } else {
        var n := if avail > |data| - numBuffered then |data| - numBuffered else avail;
        WriteStep(g', a', Contents(g, a), data, numBuffered, n);
        a' := Put(g', a', data[numBuffered..numBuffered + n]);
        g' := Write(g', n);
        numBuffered := numBuffered + n;
      }
    }
  }

  /** One pass of the write loop: the chunk after the bytes already
      copied is appended. */
  lemma WriteStep(g: Ring, a: seq<u8>, base: seq<u8>, data: seq<u8>, k: nat, n: nat)
    requires Valid(g) && |a| == g.size && n <= ContigAvail(g) && k + n <= |data|
    requires Contents(g, a) == base + data[..k]
    ensures Contents(Write(g, n), Put(g, a, data[k..k + n])) == base + data[..k + n]
  {
    WriteAppends(g, a, data[k..k + n]);
    assert data[..k + n] == data[..k] + data[k..k + n];
  }

  /** One pass of the read loop: the next held bytes are moved out. */
  lemma ReadStep(g: Ring, a: seq<u8>, all: seq<u8>, out: seq<u8>, n: nat)
    requires Valid(g) && |a| == g.size && n <= ContigData(g) && |out| <= |all|
    requires out == all[..|out|] && Contents(g, a) == all[|out|..]
    ensures out + a[g.r..g.r + n] == all[..|out| + n]
    ensures Contents(Read(g, n), a) == all[|out| + n..]
  {
    ReadTakes(g, a, n);
    assert all[..|out| + n] == all[..|out|] + all[|out|..][..n];
  }

  /** bsp_UartIo_bufferRead: contiguous chunks are copied out until cnt
      bytes are read or the buffer is empty. Then, with reception off
      (rxEnabled FALSE, left so by a full buffer) and room in the buffer, a
      one-byte receive is issued: a byte already waiting in the UART
      (pending) is taken into the buffer at once and reception stays off;
      with nothing waiting the receive is left armed and rxEnabled is set. */
  method BufferRead(g: Ring, a: seq<u8>, cnt: nat, rxEnabled: bool, pending: seq<u8>)
      returns (g': Ring, a': seq<u8>, out: seq<u8>, rxEnabled': bool, rest: seq<u8>)
    requires Valid(g) && |a| == g.size
    ensures Valid(g') && |a'| == g'.size == g.size
    ensures |out| == if cnt <= Count(g) then cnt else Count(g)
    ensures out == Contents(g, a)[..|out|]
    ensures var rearm := !rxEnabled && Count(g) - |out| < g.size;
            var taken := if rearm && pending != [] then 1 else 0;
            && rest == pending[taken..]
            && Contents(g', a') == Contents(g, a)[|out|..] + pending[..taken]
            && (rxEnabled' <==> rxEnabled || (rearm && pending == []))
  {
    g', a', out := g, a, [];
    var empty := false;
    while |out| < cnt && !empty
      invariant Valid(g') && g'.size == g.size
      invariant |out| <= cnt && |out| <= Count(g)
      invariant out == Contents(g, a)[..|out|]
      invariant Contents(g', a) == Contents(g, a)[|out|..]
      invariant empty ==> Count(g') == 0
      decreases cnt - |out|, !empty
    {
      var bufCount := ContigData(g');
      if bufCount > 0 {
        var n := if bufCount + |out| > cnt then cnt - |out| else bufCount;
        ReadStep(g', a, Contents(g, a), out, n);
        out := out + a[g'.r..g'.r + n];
        g' := Read(g', n);
      } else {
        empty := true;
      }
    }
    g', a', rxEnabled', rest := Rearm(g', a, rxEnabled, pending);
  }

  /** The end of bsp_UartIo_bufferRead: a stopped receiver is restarted
      once the ring has room. A byte the UART already holds is taken into
      the ring at once; with none pending, the receive is left armed. */
  method Rearm(g: Ring, a: seq<u8>, rxEnabled: bool, pending: seq<u8>)
      returns (g': Ring, a': seq<u8>, rxEnabled': bool, rest: seq<u8>)
    requires Valid(g) && |a| == g.size
    ensures Valid(g') && |a'| == g'.size == g.size
    ensures var rearm := !rxEnabled && Count(g) < g.size;
            var taken := if rearm && pending != [] then 1 else 0;
            && rest == pending[taken..]
            && Contents(g', a') == Contents(g, a) + pending[..taken]
            && (rxEnabled' <==> rxEnabled || (rearm && pending == []))
  {
    g', a', rxEnabled', rest := g, a, rxEnabled, pending;
    var bufferSpace := ContigAvail(g);
    if !rxEnabled && bufferSpace > 0 {
      if pending != [] {
        WriteAppends(g, a, [pending[0]]);
        a' := Put(g, a, [pending[0]]);
        g' := Write(g, 1);
        rest := pending[1..];
      } else {
        rxEnabled' := true;
      }
    }
  }

  // ---------------------------------------------------------------------
  // Receive side

  /** bsp_UartIo_rxHandler: the armed one-byte receive delivered x at the
      write index; then one-byte receives are issued while there is room,
      each taking a byte the UART already holds (pending) until none is
      left, when the last receive stays armed. With the buffer full no
      receive is armed and rxEnabled drops. */
  method RxHandler(g: Ring, a: seq<u8>, x: u8, pending: seq<u8>)
      returns (g': Ring, a': seq<u8>, rxEnabled: bool, rest: seq<u8>)
    requires Valid(g) && |a| == g.size && 0 < Free(g)
    ensures Valid(g') && |a'| == g'.size == g.size
    ensures var k := |pending| - |rest|;
            && (k == if |pending| < Free(g) - 1 then |pending| else Free(g) - 1)
            && rest == pending[k..]
            && Contents(g', a') == Contents(g, a) + [x] + pending[..k]
    ensures !rxEnabled <==> Free(g') == 0
  {
    WriteAppends(g, a, [x]);
    a' := Put(g, a, [x]);
    g' := Write(g, 1);
    rest := pending;
    var extra := 1;
    while ContigAvail(g') != 0 && extra != 0
      invariant Valid(g') && |a'| == g'.size == g.size
      invariant |rest| <= |pending| && rest == pending[|pending| - |rest|..]
      invariant Count(g') == Count(g) + 1 + (|pending| - |rest|)
      invariant Contents(g', a') == Contents(g, a) + [x] + pending[..|pending| - |rest|]
      invariant extra == 0 ==> rest == []
      decreases |rest|, extra
    {
      if rest == [] {
        extra := 0;
      } else {
        var k := |pending| - |rest|;
        WriteAppends(g', a', [rest[0]]);
        a' := Put(g', a', [rest[0]]);
        g' := Write(g', 1);
        assert pending[..k + 1] == pending[..k] + [rest[0]];
        rest := rest[1..];
      }
    }
    rxEnabled := ContigAvail(g') != 0;
  }

  // ---------------------------------------------------------------------
  // Transmit side

  /** The transmit state: the ring, whether a send to the UART driver is
      outstanding, and how many bytes it covers. */
  datatype Tx = Tx(g: Ring, enabled: bool, count: nat)

  /** An outstanding send covers held bytes that start at the read index
      and do not wrap. */
  predicate TxInv(t: Tx) {
    Valid(t.g) && (t.enabled ==> 0 < t.count <= ContigData(t.g))
  }

  /** The bytes handed to the UART driver by a send. */
  datatype Send = Send(start: nat, len: nat)

  /** bsp_UartIo_txDoneHandler: the bytes sent are released and the next
      contiguous stretch, if any, is sent. */
  function TxDone(t: Tx): (r: (Tx, seq<Send>))
    requires TxInv(t) && t.enabled
    ensures TxInv(r.0) && Count(r.0.g) == Count(t.g) - t.count
    ensures r.0.enabled <==> Count(r.0.g) > 0
    ensures r.0.enabled ==> r.1 == [Send(r.0.g.r, r.0.count)]
    ensures !r.0.enabled ==> r.1 == []
  {
    var g := Read(t.g, t.count);
    var n := ContigData(g);
    if n == 0 then (Tx(g, false, t.count), [])
    else (Tx(g, true, n), [Send(g.r, n)])
  }

  /** The end of bsp_UartIo_bufferWrite: a send is started when data is
      held and none is outstanding. */
  function TxTrigger(t: Tx): (r: (Tx, seq<Send>))
    requires TxInv(t)
    ensures TxInv(r.0) && r.0.g == t.g
    ensures r.0.enabled <==> t.enabled || Count(t.g) > 0
    ensures |r.1| <= 1 && (r.1 != [] <==> !t.enabled && Count(t.g) > 0)
  {
    var n := ContigData(t.g);
    if n > 0 && !t.enabled then (Tx(t.g, true, n), [Send(t.g.r, n)]) else (t, [])
  }

  /** Adding bytes never shrinks the stretch an outstanding send covers,
      so the transmit invariant survives a client write. */
  lemma WriteKeepsTxInv(t: Tx, n: nat)
    requires TxInv(t) && n <= ContigAvail(t.g)
    ensures TxInv(t.(g := Write(t.g, n)))
    ensures !Empty(t.g) ==> ContigData(Write(t.g, n)) >= ContigData(t.g)
  {
  }

  /** Sending drains the buffer: a send that covers the whole contiguous
      stretch (as every send the driver starts does, until the client
      writes again) is followed by at most one more, from the array's
      start, and then the ring is empty. */
  lemma TxDrains(t: Tx)
    requires TxInv(t) && t.enabled && t.count == ContigData(t.g)
    ensures var t1 := TxDone(t).0;
            t1.enabled ==> !TxDone(t1).0.enabled && Count(TxDone(t1).0.g) == 0
  {
  }
}
