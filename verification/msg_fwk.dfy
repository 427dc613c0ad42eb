/** The firmware's message framework (svc_MsgFwk.h/.c): 16-bit message ids
    that carry the addressed entity, a packed 6-byte header with a 7-bit
    reference count, point-to-point sends, and broadcasts through a table
    of (id, eh) registrations. Queues are opaque handles, 0 standing for
    NULL; what the RTOS does with an enqueued pointer is not modelled. */
module MsgFwk {
  import opened Wrappers
  import opened Bytes
  import H = HostEventHandler

  type MsgType = x: int | 0 <= x < 2
  const REQ_RSP: MsgType := 0
  const CNF_IND: MsgType := 1

  type MsgNum = x: int | 0 <= x < 0x80

  /** The 7-bit cnt bit-field. */
  type RefCnt = x: int | 0 <= x < 0x80

  const HDR_SIZE: nat := 6
  const BCAST_TABLE_LEN: nat := 10
  const EH_BROADCAST: u8 := 0

  /** SVC_MSGFWK_MSG_ID_BUILD(e, t, n) = (e << 8) | (t << 7) | n: the three
      fields occupy disjoint bits, so the getters recover each of them. */
  function IdBuild(e: u8, t: MsgType, n: MsgNum): (id: u16)
    ensures EhGet(id) == e && TypeGet(id) == t && NumGet(id) == n
  {
    e * 256 + t * 128 + n
  }

  /** EH_GET, TYPE_GET and NUM_GET: the bits under 0xFF00, 0x0080 and 0x007F. */
  function EhGet(id: u16): u8 { id / 256 }
  function TypeGet(id: u16): MsgType { (id / 128) % 2 }
  function NumGet(id: u16): MsgNum { id % 128 }

  /** Every id is the build of its own fields. */
  lemma IdOfFields(id: u16)
    ensures IdBuild(EhGet(id), TypeGet(id), NumGet(id)) == id
  {
    var e := id / 256;
    var low := id % 256;
    var t := low / 128;
    var n := low % 128;
    assert id == 128 * (2 * e + t) + n;
    assert id / 128 == 2 * e + t && id % 128 == n;
    assert (2 * e + t) % 2 == t;
  }

  /** svc_MsgFwk_Hdr_t. */
  datatype Hdr = Hdr(id: u16, eh: u8, alloc: bool, cnt: RefCnt, len: u16)

  /** A message: its header and the payload that follows it in memory. */
  datatype Msg = Msg(hdr: Hdr, payload: seq<u8>)

  /** The packed header as bytes, for a little-endian target whose compiler
      allocates bit-fields from the least significant bit: alloc is bit 0 of
      the fourth byte and cnt its bits 1-7. */
  function HdrBytes(h: Hdr): (r: seq<u8>)
    ensures |r| == HDR_SIZE
    ensures Field(r, 0, 2) == h.id && r[2] == h.eh && Field(r, 4, 2) == h.len
    ensures r[3] % 2 == (if h.alloc then 1 else 0) && r[3] / 2 == h.cnt
  {
    var r := U16(h.id) + [h.eh, 2 * h.cnt + (if h.alloc then 1 else 0)] + U16(h.len);
    assert r[..2] == U16(h.id) && r[4..6] == U16(h.len);
    r
  }

  /** Reading a header back from the first six bytes of a message. */
  function ParseHdr(b: seq<u8>): (r: Option<Hdr>)
    ensures r.Some? <==> |b| >= HDR_SIZE
  {
    if |b| < HDR_SIZE then None
    else Some(Hdr(Field(b, 0, 2), b[2], b[3] % 2 == 1, b[3] / 2, Field(b, 4, 2)))
  }

  /** A message in memory: header bytes, then the payload
      (SVC_MSGFWK_MSG_PAYLOAD_PTR points just past the header). */
  function MsgBytes(m: Msg): (r: seq<u8>)
    ensures |r| == HDR_SIZE + |m.payload|
  {
    HdrBytes(m.hdr) + m.payload
  }

  /** The header and the payload pointer both read back what was laid out. */
  lemma MsgBytesRoundTrip(m: Msg)
    ensures ParseHdr(MsgBytes(m)) == Some(m.hdr)
    ensures MsgBytes(m)[HDR_SIZE..] == m.payload
  {
    var b := MsgBytes(m);
    assert b[..HDR_SIZE] == HdrBytes(m.hdr);
    assert b[0..2] == HdrBytes(m.hdr)[0..2];
    assert b[4..6] == HdrBytes(m.hdr)[4..6];
  }

  /** The host unpacks the fourth header byte the other way round (cnt in
      bits 0-6, alloc in bit 7), so it reads a device header's cnt as
      (2 * cnt + alloc) mod 128 and its alloc as the top bit of cnt. */
  lemma HostReadsBitFieldsShifted(h: Hdr)
    ensures H.DecodeHdr(HdrBytes(h)).Success?
    ensures H.DecodeHdr(HdrBytes(h)).value.cnt == (2 * h.cnt + (if h.alloc then 1 else 0)) % 128
    ensures H.DecodeHdr(HdrBytes(h)).value.alloc <==> h.cnt >= 64
    ensures H.DecodeHdr(HdrBytes(h)).value.msgId == h.id && H.DecodeHdr(HdrBytes(h)).value.len == h.len
  {
    var b := HdrBytes(h);
    assert b[3] == 2 * h.cnt + (if h.alloc then 1 else 0);
  }

  /** The cnt field after ++ and --: 7-bit arithmetic that wraps. */
  function Inc(c: RefCnt): RefCnt { (c + 1) % 0x80 }
  function Dec(c: RefCnt): RefCnt { (c + 0x7F) % 0x80 }

  /** ++ and -- undo each other on every value, and 127 + 1 wraps to 0. */
  lemma IncDecInverse(c: RefCnt)
    ensures Dec(Inc(c)) == c && Inc(Dec(c)) == c
    ensures c == 0x7F ==> Inc(c) == 0
  {
  }

  /** What osapi_Memory_alloc handed back: NULL, or a block whose alloc and
      cnt bits still hold what the allocator left there, since msgAlloc does
      not write them. */
  datatype Block = Null | Block(alloc: bool, cnt: RefCnt)

  /** The BSP_ASSERTs of msgAlloc that stop the system. */
  datatype Fault = LenTooShort | OutOfMemory

  /** msgAlloc: asserts len >= the header size and a non-NULL block, and
      stamps eh, id and len. */
  function Alloc(eh: u8, id: u16, len: u16, blk: Block): (r: Result<Hdr, Fault>)
    ensures r.Success? <==> len >= HDR_SIZE && blk.Block?
    ensures len < HDR_SIZE ==> r == Failure(LenTooShort)
    ensures r.Success? ==> r.value.eh == eh && r.value.id == id && r.value.len == len
    ensures r.Success? ==> r.value.alloc == blk.alloc && r.value.cnt == blk.cnt
  {
    if len < HDR_SIZE then Failure(LenTooShort)
    else if blk.Null? then Failure(OutOfMemory)
    else Success(Hdr(id, eh, blk.alloc, blk.cnt, len))
  }

  /** msgAllocCopy: the payload is the first len - 6 bytes of data, copied
      only when len exceeds the header size. */
  function AllocCopy(eh: u8, id: u16, len: u16, data: seq<u8>, blk: Block): (r: Result<Msg, Fault>)
    requires len > HDR_SIZE ==> |data| >= len - HDR_SIZE
    ensures r.Success? <==> Alloc(eh, id, len, blk).Success?
    ensures r.Success? ==> r.value.hdr == Alloc(eh, id, len, blk).value
    ensures r.Success? ==> |r.value.payload| == len - HDR_SIZE
    ensures r.Success? ==> r.value.payload == data[..len - HDR_SIZE]
  {
    var h :- Alloc(eh, id, len, blk);
    Success(Msg(h, if len > HDR_SIZE then data[..len - HDR_SIZE] else []))
  }

  /** msgSend's destination: the header's eh for a confirm or indication,
      otherwise the entity encoded in the id. */
  function Dest(h: Hdr): u8 {
    if TypeGet(h.id) == CNF_IND then h.eh else EhGet(h.id)
  }

  /** A request addressed by id reaches the entity in the id whatever the
      header's eh; a confirm or indication reaches the header's eh whatever
      entity the id names. */
  lemma DestOfBuiltIds(e: u8, eh: u8, n: MsgNum, alloc: bool, cnt: RefCnt, len: u16)
    ensures Dest(Hdr(IdBuild(e, REQ_RSP, n), eh, alloc, cnt, len)) == e
    ensures Dest(Hdr(IdBuild(e, CNF_IND, n), eh, alloc, cnt, len)) == eh
  {
  }

  /** A header the host builds from (type, source, destination) is routed by
      the firmware to that destination, in both directions. */
  lemma HostHeaderReachesDestination(t: H.MsgType, src: u8, dst: u8, num: H.MsgNum, payloadLen: nat)
    requires H.BuildHdr(t, src, dst, num, payloadLen).Success?
    ensures var v := H.BuildHdr(t, src, dst, num, payloadLen).value;
            Dest(Hdr(v.msgId, v.eh, v.alloc, v.cnt, v.len)) == dst
  {
  }

  /** One registration of the broadcast table. */
  datatype BcastElement = BcastElement(id: u16, eh: u8)

  /** The framework's globals: queueTable indexed by eh, the broadcast
      table and its u8 fill index. The C table holds ten elements; because
      registerMsg never checks the index, later registrations land in the
      memory after it, modelled as further slots up to the reach of the
      index. */
  datatype Fwk = Fwk(queues: seq<nat>, slots: seq<BcastElement>, idx: u8)

  const SLOT_REACH: nat := 0x100

  predicate Valid(f: Fwk) {
    |f.queues| > 0 && |f.slots| == SLOT_REACH &&
    forall i :: 0 <= i < |f.slots| ==> f.slots[i].eh < |f.queues|
  }

  /** Zero-initialised globals: no queues and every slot (id 0, eh 0). */
  function Init(numEh: nat): (f: Fwk)
    requires numEh > 0
    ensures Valid(f) && f.idx == 0 && |f.queues| == numEh
    ensures forall e :: 0 <= e < numEh ==> f.queues[e] == 0
  {
    Fwk(seq(numEh, _ => 0), seq(SLOT_REACH, _ => BcastElement(0, 0)), 0)
  }

  /** The ten slots a broadcast scans. */
  function Table(f: Fwk): seq<BcastElement>
    requires |f.slots| == SLOT_REACH
  {
    f.slots[..BCAST_TABLE_LEN]
  }

  /** registerEh: map eh to its queue. */
  function RegisterEh(f: Fwk, eh: u8, q: nat): (g: Fwk)
    requires Valid(f) && eh < |f.queues|
    ensures Valid(g) && g.slots == f.slots && g.idx == f.idx && |g.queues| == |f.queues|
    ensures g.queues[eh] == q
    ensures forall e :: 0 <= e < |f.queues| && e != eh ==> g.queues[e] == f.queues[e]
  {
    f.(queues := f.queues[eh := q])
  }

  /** msgSend/msgEnqueue: one more reference, pushed to the queue of the
      destination. */
  datatype Sent = Sent(queue: nat, hdr: Hdr)

  function Send(f: Fwk, h: Hdr): (r: Sent)
    requires Valid(f) && Dest(h) < |f.queues|
    ensures r.queue == f.queues[Dest(h)]
    ensures r.hdr.cnt == Inc(h.cnt) && r.hdr == h.(cnt := r.hdr.cnt)
  {
    Sent(f.queues[Dest(h)], h.(cnt := Inc(h.cnt)))
  }

  /** After registerEh, a message for that eh lands in the new queue. */
  lemma SendAfterRegisterEh(f: Fwk, h: Hdr, q: nat)
    requires Valid(f) && Dest(h) < |f.queues|
    ensures Send(RegisterEh(f, Dest(h), q), h).queue == q
  {
  }

  /** msgZeroCopy: the receiver keeps one more reference. */
  function ZeroCopy(h: Hdr): (r: Hdr)
    ensures r.cnt == Inc(h.cnt) && r == h.(cnt := r.cnt)
  {
    h.(cnt := Inc(h.cnt))
  }

  /** msgRelease: one reference fewer; the block is freed when cnt reaches 0. */
  datatype Released = Released(hdr: Hdr, freed: bool)

  function Release(h: Hdr): (r: Released)
    ensures r.hdr == h.(cnt := Dec(h.cnt))
    ensures r.freed <==> h.cnt == 1
  {
    var c := Dec(h.cnt);
    Released(h.(cnt := c), c == 0)
  }

  /** Releasing what a send or zero-copy added restores the header, and
      frees the message exactly when no other reference was held. */
  lemma ReleaseUndoesReference(h: Hdr)
    ensures Release(ZeroCopy(h)).hdr == h
    ensures Release(ZeroCopy(h)).freed <==> h.cnt == 0
  {
    IncDecInverse(h.cnt);
  }

  /** Releasing a message whose count is already 0 does not free it: the
      count wraps to 127. */
  lemma ReleaseAtZeroWraps(h: Hdr)
    requires h.cnt == 0
    ensures !Release(h).freed && Release(h).hdr.cnt == 0x7F
  {
  }

  /** n further references. */
  function EnqueueN(h: Hdr, n: nat): (r: Hdr)
    ensures r.cnt == (h.cnt + n) % 0x80 && r == h.(cnt := r.cnt)
  {
    if n == 0 then h
    else
      var r := ZeroCopy(EnqueueN(h, n - 1));
      IncMod(h.cnt, n);
      r
  }

  /** One increment more, modulo the 7-bit counter. */
  lemma IncMod(c: nat, n: nat)
    requires n >= 1
    ensures ((c + n - 1) % 0x80 + 1) % 0x80 == (c + n) % 0x80
  {
  }

  /** The queues that a broadcast of id reaches: one per matching slot, in
      table order, the eh of the slot selecting the queue. */
  function Targets(table: seq<BcastElement>, queues: seq<nat>, id: u16): (r: seq<nat>)
    requires forall i :: 0 <= i < |table| ==> table[i].eh < |queues|
    ensures |r| <= |table|
    ensures forall i :: 0 <= i < |table| && table[i].id == id ==> queues[table[i].eh] in r
    ensures forall q :: q in r ==> exists i :: 0 <= i < |table| && table[i].id == id && queues[table[i].eh] == q
  {
    if table == [] then []
    else
      var rest := Targets(table[1..], queues, id);
      assert forall i :: 1 <= i < |table| ==> table[i] == table[1..][i - 1];
      (if table[0].id == id then [queues[table[0].eh]] else []) + rest
  }

  /** msgBroadcast: one extra reference while scanning, one enqueue per
      matching slot among all ten, then a single release. */
  datatype Broadcasted = Broadcasted(queues: seq<nat>, hdr: Hdr, freed: bool)

  function Broadcast(f: Fwk, h: Hdr): (r: Broadcasted)
    requires Valid(f)
    ensures r.queues == Targets(Table(f), f.queues, h.id)
    ensures r.hdr.cnt == (h.cnt + |r.queues|) % 0x80 && r.hdr == h.(cnt := r.hdr.cnt)
    ensures r.freed <==> r.hdr.cnt == 0
  {
    var qs := Targets(Table(f), f.queues, h.id);
    var rel := Release(EnqueueN(ZeroCopy(h), |qs|));
    BroadcastCount(h.cnt, |qs|);
    Broadcasted(qs, rel.hdr, rel.freed)
  }

  /** The scan's extra reference, n enqueues and the release. */
  lemma BroadcastCount(c: RefCnt, n: nat)
    ensures Dec((Inc(c) + n) % 0x80) == (c + n) % 0x80
  {
  }

  /** A freshly allocated message (cnt 0) is freed by its broadcast exactly
      when no slot matched; otherwise each receiving queue holds one
      reference. */
  lemma BroadcastOfFreshMessage(f: Fwk, h: Hdr)
    requires Valid(f) && h.cnt == 0
    ensures Broadcast(f, h).freed <==> Targets(Table(f), f.queues, h.id) == []
    ensures Broadcast(f, h).hdr.cnt == |Targets(Table(f), f.queues, h.id)|
  {
  }

  /** msgAllocAndBroadcast: the copy is addressed to the BROADCAST eh. */
  function AllocAndBroadcast(f: Fwk, id: u16, len: u16, data: seq<u8>, blk: Block): (r: Result<Broadcasted, Fault>)
    requires Valid(f)
    requires len > HDR_SIZE ==> |data| >= len - HDR_SIZE
    ensures r.Success? <==> len >= HDR_SIZE && blk.Block?
    ensures r.Success? ==> r.value.hdr.eh == EH_BROADCAST && r.value.hdr.id == id
    ensures r.Success? ==> r.value.queues == Targets(Table(f), f.queues, id)
  {
    var m :- AllocCopy(EH_BROADCAST, id, len, data, blk);
    Success(Broadcast(f, m.hdr))
  }

  /** msgAllocAndSend. */
  function AllocAndSend(f: Fwk, eh: u8, id: u16, len: u16, data: seq<u8>, blk: Block): (r: Result<Sent, Fault>)
    requires Valid(f)
    requires len > HDR_SIZE ==> |data| >= len - HDR_SIZE
    requires (if TypeGet(id) == CNF_IND then eh else EhGet(id)) < |f.queues|
    ensures r.Success? <==> len >= HDR_SIZE && blk.Block?
    ensures r.Success? && TypeGet(id) == CNF_IND ==> r.value.queue == f.queues[eh]
    ensures r.Success? && TypeGet(id) == REQ_RSP ==> r.value.queue == f.queues[EhGet(id)]
  {
    var m :- AllocCopy(eh, id, len, data, blk);
    Success(Send(f, m.hdr))
  }

  /** registerMsg's duplicate test: a slot below the fill index already maps
      id to an eh served by the same queue as eh. */
  predicate AlreadyMapped(f: Fwk, eh: u8, id: u16)
    requires Valid(f) && eh < |f.queues|
  {
    exists i :: 0 <= i < f.idx && f.slots[i].id == id && f.queues[f.slots[i].eh] == f.queues[eh]
  }

  /** The scan loop of registerMsg: saveMapping stays true exactly when no
      earlier slot already maps the id to the same queue. */
  method ScanForMapping(f: Fwk, eh: u8, id: u16) returns (saveMapping: bool)
    requires Valid(f) && eh < |f.queues|
    ensures saveMapping <==> !AlreadyMapped(f, eh, id)
  {
    saveMapping := true;
    var i := 0;
    while i < f.idx
      invariant 0 <= i <= f.idx
      invariant saveMapping <==> forall j :: 0 <= j < i ==> !(f.slots[j].id == id && f.queues[f.slots[j].eh] == f.queues[eh])
    {
      if f.slots[i].id == id && f.queues[eh] == f.queues[f.slots[i].eh] {
        saveMapping := false;
      }
      i := i + 1;
    }
  }

  /** registerMsg: unless the mapping is already present, write it at the
      fill index and advance the u8 index; nothing checks the index
      against the ten-element table. */
  function RegisterMsg(f: Fwk, eh: u8, id: u16): (g: Fwk)
    requires Valid(f) && eh < |f.queues|
    ensures Valid(g) && g.queues == f.queues
    ensures AlreadyMapped(f, eh, id) ==> g == f
    ensures !AlreadyMapped(f, eh, id) ==> g.idx == (f.idx + 1) % 0x100
    ensures !AlreadyMapped(f, eh, id) ==> g.slots[f.idx] == BcastElement(id, eh)
    ensures forall i :: 0 <= i < SLOT_REACH && i != f.idx ==> g.slots[i] == f.slots[i]
  {
    if AlreadyMapped(f, eh, id) then f
    else Fwk(f.queues, f.slots[f.idx := BcastElement(id, eh)], ((f.idx + 1) % 0x100) as u8)
  }

  /** Registering the same (eh, id) twice adds one slot, as long as the fill
      index does not wrap to 0 in between. */
  lemma RegisterMsgIdempotent(f: Fwk, eh: u8, id: u16)
    requires Valid(f) && eh < |f.queues| && f.idx < 0xFF
    ensures RegisterMsg(RegisterMsg(f, eh, id), eh, id) == RegisterMsg(f, eh, id)
  {
    var g := RegisterMsg(f, eh, id);
    if !AlreadyMapped(f, eh, id) {
      assert g.slots[f.idx].id == id && g.queues[g.slots[f.idx].eh] == g.queues[eh];
      assert AlreadyMapped(g, eh, id);
    } else {
      assert g == f;
    }
  }

  /** Two ehs served by one queue register an id once between them, so a
      broadcast puts the message on that queue once. */
  lemma SharedQueueRegisteredOnce(f: Fwk, e1: u8, e2: u8, id: u16)
    requires Valid(f) && e1 < |f.queues| && e2 < |f.queues| && f.idx < 0xFF
    requires f.queues[e1] == f.queues[e2]
    ensures RegisterMsg(RegisterMsg(f, e1, id), e2, id) == RegisterMsg(f, e1, id)
  {
    var g := RegisterMsg(f, e1, id);
    if !AlreadyMapped(f, e1, id) {
      assert g.slots[f.idx].id == id && g.queues[g.slots[f.idx].eh] == g.queues[e2];
      assert AlreadyMapped(g, e2, id);
    } else {
      var i :| 0 <= i < f.idx && f.slots[i].id == id && f.queues[f.slots[i].eh] == f.queues[e1];
      assert AlreadyMapped(g, e2, id);
    }
  }

  /** A new registration inside the table makes the registering eh's queue
      a target of every later broadcast of that id. */
  lemma RegisteredIdIsBroadcast(f: Fwk, eh: u8, id: u16)
    requires Valid(f) && eh < |f.queues| && f.idx < BCAST_TABLE_LEN
    requires !AlreadyMapped(f, eh, id)
    ensures f.queues[eh] in Targets(Table(RegisterMsg(f, eh, id)), f.queues, id)
  {
    var g := RegisterMsg(f, eh, id);
    assert Table(g)[f.idx] == BcastElement(id, eh);
  }

  /** From the eleventh registration on, the mapping is written outside the
      ten-element table: broadcasts never see it. */
  lemma RegistrationPastTableIsLost(f: Fwk, eh: u8, id: u16)
    requires Valid(f) && eh < |f.queues| && f.idx >= BCAST_TABLE_LEN
    ensures Table(RegisterMsg(f, eh, id)) == Table(f)
  {
  }

  /** In the zero-initialised table every slot reads (id 0, eh 0), so a
      broadcast of id 0 is pushed ten times to the queue of eh 0. */
  lemma EmptySlotsMatchIdZero(numEh: nat)
    requires numEh > 0
    ensures Targets(Table(Init(numEh)), Init(numEh).queues, 0) == seq(BCAST_TABLE_LEN, _ => 0)
  {
    var f := Init(numEh);
    var t := Table(f);
    assert forall i :: 0 <= i < |t| ==> t[i] == BcastElement(0, 0);
    AllMatch(t, f.queues);
  }

  lemma {:induction false} AllMatch(t: seq<BcastElement>, queues: seq<nat>)
    requires |queues| > 0 && queues[0] == 0
    requires forall i :: 0 <= i < |t| ==> t[i] == BcastElement(0, 0)
    ensures Targets(t, queues, 0) == seq(|t|, _ => 0)
  {
    if t != [] {
      AllMatch(t[1..], queues);
    }
  }
}
