/** The binary command dispatcher (svc_CmdEh_cmds.c, svc_CmdEh_cmds.h): a
    command buffer starts with a little-endian len (the bytes after the len
    field) and a command id; VERSION, EHSTATS and BCAST_REG answer through
    the sender they were given, EHMSG turns its payload into a framework
    message, and any other id is ignored. */
module CmdEhCmds {
  import opened Wrappers
  import opened Bytes
  import M = MsgFwk
  import P = HostProtocol

  const VERSION: u16 := 1
  const EHSTATS: u16 := 2
  const EHMSG: u16 := 3
  const BCAST_REG: u16 := 4

  /** svc_CmdEh_CmdHdr_t: len and cmdId, two bytes each. */
  const CMD_HDR_SIZE: nat := 4
  const STATS_SIZE: nat := 19

  /** svc_MsgFwk_Stats_t, packed. */
  datatype Stats = Stats(numAlloc: u32, numFree: u32, numSend: u32, numBcast: u32,
                         bcastMapTotal: u8, bcastMapAvail: u8, numEhId: u8)

  function StatsBytes(s: Stats): (r: seq<u8>)
    ensures |r| == STATS_SIZE
    ensures r[..16] == U32(s.numAlloc) + U32(s.numFree) + U32(s.numSend) + U32(s.numBcast)
    ensures r[16] == s.bcastMapTotal && r[17] == s.bcastMapAvail && r[18] == s.numEhId
  {
    U32(s.numAlloc) + U32(s.numFree) + U32(s.numSend) + U32(s.numBcast)
      + [s.bcastMapTotal, s.bcastMapAvail, s.numEhId]
  }

  /** A confirm: a header whose len counts everything after the len field. */
  function Confirm(id: u16, body: seq<u8>): (r: seq<u8>)
    requires |body| + 2 < 0x1_0000
    ensures |r| == CMD_HDR_SIZE + |body|
    ensures Field(r, 0, 2) == |r| - 2 && Field(r, 2, 2) == id && r[CMD_HDR_SIZE..] == body
  {
    var r := U16(|body| + 2) + U16(id) + body;
    assert r[0..2] == U16(|body| + 2) && r[2..4] == U16(id);
    r
  }

  /** What a command did. The framework state after it, and the confirm
      handed to the sender or the message sent, if any. */
  datatype Handled =
    | Replied(fwk: M.Fwk, reply: seq<u8>)
    | Forwarded(sent: M.Sent)
    | Ignored

  /** A command can also halt the firmware (a failed BSP_ASSERT in the
      allocator) or make it read memory the model does not have: bytes past
      the received command, or a queue-table entry past its end. */
  datatype Outcome = Handled(h: Handled) | Faulted(fault: M.Fault) | OutOfBounds

  /** svc_CmdEh_handlerBinary. The build versions and the framework stats
      are parameters, as is the block the allocator hands out. */
  function HandlerBinary(f: M.Fwk, buf: seq<u8>, verHw: u32, verFw: u32, stats: Stats, blk: M.Block): (r: Outcome)
    requires M.Valid(f)
    ensures |buf| < CMD_HDR_SIZE ==> r == OutOfBounds
    ensures r.Handled? && r.h.Replied? ==>
              |buf| >= CMD_HDR_SIZE && |r.h.reply| >= CMD_HDR_SIZE &&
              Field(r.h.reply, 2, 2) == Field(buf, 2, 2) && Field(r.h.reply, 0, 2) == |r.h.reply| - 2
    ensures r.Handled? && r.h.Ignored? <==>
              |buf| >= CMD_HDR_SIZE && Field(buf, 2, 2) !in {VERSION, EHSTATS, EHMSG, BCAST_REG}
    ensures r.Handled? && r.h.Replied? && Field(buf, 2, 2) != BCAST_REG ==> r.h.fwk == f
    ensures r.Faulted? ==> Field(buf, 2, 2) == EHMSG
  {
    if |buf| < CMD_HDR_SIZE then OutOfBounds
    else
      var len := Field(buf, 0, 2);
      var id := Field(buf, 2, 2);
      if id == VERSION then Handled(Replied(f, Confirm(VERSION, U32(verHw) + U32(verFw))))
      else if id == EHSTATS then Handled(Replied(f, Confirm(EHSTATS, StatsBytes(stats))))
      else if id == BCAST_REG then
        if |buf| < CMD_HDR_SIZE + 3 then OutOfBounds
        else
          var eh := buf[4];
          if eh >= |f.queues| then OutOfBounds
          else Handled(Replied(M.RegisterMsg(f, eh, Field(buf, 5, 2)), Confirm(BCAST_REG, [])))
      else if id == EHMSG then EhMsg(f, len, buf[CMD_HDR_SIZE..], blk)
      else Handled(Ignored)
  }

  /** The EHMSG branch: the message length is cmd.len - 2 in 16 bits, the
      new message takes eh and id from the embedded header, and the bytes
      after that header are copied behind the new one. */
  function EhMsg(f: M.Fwk, cmdLen: u16, inner: seq<u8>, blk: M.Block): (r: Outcome)
    requires M.Valid(f)
    ensures r.Handled? ==> r.h.Forwarded?
    ensures (cmdLen + 0x1_0000 - 2) % 0x1_0000 < M.HDR_SIZE ==> r == Faulted(M.LenTooShort)
    ensures r.Handled? ==>
              var len := (cmdLen + 0x1_0000 - 2) % 0x1_0000;
              len >= M.HDR_SIZE && |inner| >= len && M.Dest(r.h.sent.hdr) < |f.queues| &&
              r.h.sent.hdr.id == Field(inner, 0, 2) && r.h.sent.hdr.eh == inner[2] && r.h.sent.hdr.len == len &&
              r.h.sent.queue == f.queues[M.Dest(r.h.sent.hdr)]
  {
    var len: u16 := (cmdLen + 0x1_0000 - 2) % 0x1_0000;
    if len < M.HDR_SIZE then Faulted(M.LenTooShort)
    else if blk.Null? then Faulted(M.OutOfMemory)
    else if |inner| < len then OutOfBounds
    else
      var msg := M.AllocCopy(inner[2], Field(inner, 0, 2), len, inner[M.HDR_SIZE..], blk).value;
      if M.Dest(msg.hdr) >= |f.queues| then OutOfBounds
      else Handled(Forwarded(M.Send(f, msg.hdr)))
  }

  /** The host reads a VERSION confirm back as the two build versions. */
  lemma VersionReplyParses(f: M.Fwk, buf: seq<u8>, verHw: u32, verFw: u32, stats: Stats, blk: M.Block)
    requires M.Valid(f) && |buf| >= CMD_HDR_SIZE && Field(buf, 2, 2) == VERSION
    ensures var r := HandlerBinary(f, buf, verHw, verFw, stats, blk);
            r.Handled? && r.h.Replied? &&
            P.CnfFromBin(r.h.reply).Success? &&
            P.ParseVersionCnf(P.CnfFromBin(r.h.reply).value) == Success(P.VersionCnf(true, verHw, verFw))
  {
    var reply := Confirm(VERSION, U32(verHw) + U32(verFw));
    ConfirmHeader(VERSION, U32(verHw) + U32(verFw));
    var c := P.CnfFromBin(reply).value;
    assert c.data == U32(verHw) + U32(verFw);
    var v := P.ParseVersionCnf(c).value;
    assert U32(v.hwModel) + U32(v.fwVer) == U32(verHw) + U32(verFw);
    assert U32(v.hwModel) == U32(verHw) && U32(v.fwVer) == U32(verFw) by {
      assert (U32(v.hwModel) + U32(v.fwVer))[..4] == U32(v.hwModel);
      assert (U32(verHw) + U32(verFw))[..4] == U32(verHw);
      assert (U32(v.hwModel) + U32(v.fwVer))[4..] == U32(v.fwVer);
      assert (U32(verHw) + U32(verFw))[4..] == U32(verFw);
    }
    FromLEOfLE(v.hwModel, 4);
    FromLEOfLE(verHw, 4);
    FromLEOfLE(v.fwVer, 4);
    FromLEOfLE(verFw, 4);
    Pow256Values();
  }

  /** The host reads an EHSTATS confirm back as the framework stats. */
  lemma StatsReplyParses(f: M.Fwk, buf: seq<u8>, verHw: u32, verFw: u32, stats: Stats, blk: M.Block)
    requires M.Valid(f) && |buf| >= CMD_HDR_SIZE && Field(buf, 2, 2) == EHSTATS
    ensures var r := HandlerBinary(f, buf, verHw, verFw, stats, blk);
            r.Handled? && r.h.Replied? &&
            P.CnfFromBin(r.h.reply).Success? &&
            P.ParseEhStatsCnf(P.CnfFromBin(r.h.reply).value) ==
              Success(P.EhStatsCnf(true, stats.numAlloc, stats.numFree, stats.numSend, stats.numBcast,
                                   stats.bcastMapTotal, stats.bcastMapAvail, stats.numEhId))
  {
    var body := StatsBytes(stats);
    ConfirmHeader(EHSTATS, body);
    var c := P.CnfFromBin(Confirm(EHSTATS, body)).value;
    assert c.data == body;
    Pow256Values();
    assert body[0..4] == U32(stats.numAlloc);
    assert body[4..8] == U32(stats.numFree);
    assert body[8..12] == U32(stats.numSend);
    assert body[12..16] == U32(stats.numBcast);
    FromLEOfLE(stats.numAlloc, 4);
    FromLEOfLE(stats.numFree, 4);
    FromLEOfLE(stats.numSend, 4);
    FromLEOfLE(stats.numBcast, 4);
  }

  /** A confirm's first four bytes are the header the host decodes. */
  lemma ConfirmHeader(id: u16, body: seq<u8>)
    requires |body| + 2 < 0x1_0000
    ensures P.CnfFromBin(Confirm(id, body)) == Success(P.Cnf(true, P.CmdHdr(|body| + 2, id), body))
  {
    var r := Confirm(id, body);
    var h := P.HdrFromBin(r).value;
    assert U16(h.len) + U16(h.id) == r[..4];
    assert r[..4] == U16(|body| + 2) + U16(id);
    assert U16(h.len)[..2] == U16(|body| + 2)[..2] by {
      assert (U16(h.len) + U16(h.id))[..2] == U16(h.len);
      assert (U16(|body| + 2) + U16(id))[..2] == U16(|body| + 2);
    }
    assert U16(h.id) == U16(id) by {
      assert (U16(h.len) + U16(h.id))[2..] == U16(h.id);
      assert (U16(|body| + 2) + U16(id))[2..] == U16(id);
    }
    FromLEOfLE(h.len, 2);
    FromLEOfLE(|body| + 2, 2);
    FromLEOfLE(h.id, 2);
    FromLEOfLE(id, 2);
  }

  /** The host's BCAST_REG request, as binary, registers the (eh, msgId)
      pair and draws an empty confirm that the host accepts. */
  lemma BcastRegFromHost(f: M.Fwk, eh: u8, msgId: u16, verHw: u32, verFw: u32, stats: Stats, blk: M.Block)
    requires M.Valid(f) && eh < |f.queues|
    ensures var buf := P.ReqBinary(P.BcastRegReq(eh, msgId)).value;
            var r := HandlerBinary(f, buf, verHw, verFw, stats, blk);
            r == Handled(Replied(M.RegisterMsg(f, eh, msgId), Confirm(BCAST_REG, []))) &&
            P.ParseEmptyCnf(P.CnfFromBin(r.h.reply).value, P.BCAST_REG) == Success(true)
  {
    var req := P.BcastRegReq(eh, msgId);
    var buf := P.ReqBinary(req).value;
    assert buf[..4] == P.HdrBinary(P.CmdHdr(5, 4)).value == U16(5) + U16(4);
    assert Field(buf, 2, 2) == BCAST_REG by {
      assert buf[2..4] == U16(4);
      FromLEOfLE(4, 2);
    }
    assert buf[4..] == [eh] + U16(msgId);
    assert buf[4] == eh;
    assert buf[5..7] == U16(msgId);
    FromLEOfLE(msgId, 2);
    ConfirmHeader(BCAST_REG, []);
  }

  /** The host's EHMSG request carrying a framework message becomes that
      message on the device: same id, eh and length, the payload after the
      header, with alloc and cnt from the block the allocator returns. */
  lemma EhMsgFromHost(f: M.Fwk, m: M.Msg, verHw: u32, verFw: u32, stats: Stats, blk: M.Block)
    requires M.Valid(f) && blk.Block? && m.hdr.len == M.HDR_SIZE + |m.payload| && m.hdr.len + 2 < 0x1_0000
    requires M.Dest(m.hdr.(alloc := blk.alloc, cnt := blk.cnt)) < |f.queues|
    ensures var buf := P.ReqBinary(P.EhMsgReq(M.MsgBytes(m))).value;
            var r := HandlerBinary(f, buf, verHw, verFw, stats, blk);
            r == Handled(Forwarded(M.Send(f, m.hdr.(alloc := blk.alloc, cnt := blk.cnt))))
  {
    var bytes := M.MsgBytes(m);
    var req := P.EhMsgReq(bytes);
    var buf := P.ReqBinary(req).value;
    assert buf[..4] == U16(2 + |bytes|) + U16(3);
    assert Field(buf, 2, 2) == EHMSG by {
      assert buf[2..4] == U16(3);
      FromLEOfLE(3, 2);
    }
    assert Field(buf, 0, 2) == 2 + |bytes| by {
      assert buf[0..2] == U16(2 + |bytes|);
      FromLEOfLE(2 + |bytes|, 2);
    }
    var inner := buf[CMD_HDR_SIZE..];
    assert inner == bytes;
    M.MsgBytesRoundTrip(m);
    assert inner[M.HDR_SIZE..] == m.payload;
    assert inner[M.HDR_SIZE..][..m.hdr.len - M.HDR_SIZE] == m.payload;
  }
}
