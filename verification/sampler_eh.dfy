/** The sampler variant of the power-monitor event handler
    (svc_SamplerEh.c). It runs the same four-state machine as PwrMonEh over
    CONFIG, START and STOP, but instead of DATA_IND it receives the sampler's
    own packets (PKT_READY_IND), folds them into the channel averages, writes
    them to the USB bulk endpoint and reports each packet back to the sampler
    once the endpoint has taken all of its bytes. Log output is left out. */
module SamplerEh {
  import opened Wrappers
  import opened Bytes
  import opened Bits
  import PM = PwrMonMsgs
  import PC = PwrMonChannel
  import PS = PwrMonSampler
  import E = PwrMonEh

  /** Build-time facts no header of the model defines: the handler's own
      id, the sampler's constants, the value of SVC_PWRMONEH_SMPL_FMT_24BIT
      and the sample sizes SVC_PWRMON_SAMPLER_SAMPLE_SIZE_24BIT and _32BIT. */
  datatype Platform = Platform(self: u8, smp: PS.Params, fmt24: u8, size24: nat, size32: nat)

  /** A packet the sampler hands over: the buffer it sits in, its header,
      its data cells and its length in bytes. A cell keeps the low 16 bits
      of each reading, which is all that a channel update adds up. */
  datatype Packet = Packet(buf: nat, hdr: PS.PktHdr, cells: seq<(i16, i16)>, len: u32)

  /** What a received message asks for, by its id; `Unhandled` stands for
      every other id. */
  datatype Req =
    | ConfigReq(smplFmt: u8, table: seq<E.ChEntry>)
    | StartReq
    | StopReq
    | PktReadyInd(pkt: Packet)
    | Unhandled(id: u16)

  datatype Msg = Msg(eh: u8, req: Req)

  /** What handling does outside the handler's own state: a status confirm,
      a sampler effect, an LED colour, a USB bulk write of a packet, the
      sampler's packet-sent callback, a PKT_READY_IND posted to itself. */
  datatype Out =
    | Cnf(dest: u8, id: u16, status: u8)
    | Sampler(e: PS.Effect)
    | Led(color: nat)
    | UsbWrite(buf: nat, len: u32)
    | PktSent
    | Post(pkt: Packet)

  /** The handler's globals: its state, the sample size chosen by the last
      configuration, the USB connection flag, the bytes of the current
      packet still to be written (int32_t) and whether a sent callback has
      been stored; plus the channel table and the sampler it drives. */
  datatype Eh = Eh(state: E.State, sampleSize: nat, connected: bool, remain: i32, cbSet: bool,
                   chans: PC.Channels, smp: PS.Ctx)

  /** A BSP_ASSERT failure or a call through the NULL callback ends in `Fatal`. */
  datatype Outcome = Done(eh: Eh, outs: seq<Out>) | Fatal

  predicate Valid(pl: Platform, e: Eh) {
    PC.Valid(e.chans) && |e.chans.info| == pl.smp.numChannels && PS.Shape(e.smp)
  }

  /** A packet fills its data area as the sampler lays it out: numSmplSet
      rows of numCh cells, one column per channel of its bitmap. */
  predicate Fits(pl: Platform, m: Msg) {
    m.req.PktReadyInd? ==>
      var h := m.req.pkt.hdr;
      h.numSmplSet * h.numCh <= |m.req.pkt.cells| && h.numCh <= PopCount(h.chBitmap, pl.smp.numChannels)
  }

  function Samplers(es: seq<PS.Effect>): (r: seq<Out>)
    ensures |r| == |es| && forall k :: 0 <= k < |es| ==> r[k] == Sampler(es[k])
  {
    seq(|es|, k requires 0 <= k < |es| => Sampler(es[k]))
  }

  function StatusCnf(pl: Platform, m: Msg, n: PM.MsgName, status: u8): Out {
    Cnf(m.eh, PM.Id(pl.self, n), status)
  }

  /** svc_PwrMonEh_init: INIT, nothing to write and no callback, a fresh
      channel table and sampler; the connection flag waits for the USB
      stack's callback. */
  function EhInit(pl: Platform): (r: Outcome)
    requires pl.smp.numChannels <= PC.BITMAP_BITS
    ensures r.Done? && Valid(pl, r.eh) && r.eh.state == E.Init
    ensures r.eh.remain == 0 && !r.eh.cbSet && !r.eh.connected && r.eh.chans.bitmap == 0
  {
    var s := PS.Init();
    Done(Eh(E.Init, 0, false, 0, false, PC.Init(pl.smp.numChannels), s.0), Samplers(s.1))
  }

  // ---------------------------------------------------------------------
  // Configuration

  /** The sample size a configuration selects. */
  function SizeFor(pl: Platform, smplFmt: u8): (r: nat)
    requires pl.size24 != pl.size32
    ensures r == pl.size24 <==> smplFmt == pl.fmt24
    ensures r == pl.size24 || r == pl.size32
  {
    if smplFmt == pl.fmt24 then pl.size24 else pl.size32
  }

  /** svc_PwrMonEh_processConfigReq: every table entry configures its
      channel, then the format picks the sample size. */
  function Configure(pl: Platform, e: Eh, smplFmt: u8, table: seq<E.ChEntry>): (r: Option<Eh>)
    requires Valid(pl, e) && pl.size24 != pl.size32
    ensures r.Some? <==> forall k :: 0 <= k < |table| ==> table[k].chId < pl.smp.numChannels
    ensures r.Some? ==> Valid(pl, r.value) && r.value.chans == E.ProcessConfig(e.chans, table).value
    ensures r.Some? ==> r.value.sampleSize == SizeFor(pl, smplFmt)
    ensures r.Some? ==> r.value == e.(chans := r.value.chans, sampleSize := r.value.sampleSize)
  {
    match E.ProcessConfig(e.chans, table)
    case None => None
    case Some(cs) => Some(e.(chans := cs, sampleSize := SizeFor(pl, smplFmt)))
  }

  // ---------------------------------------------------------------------
  // PKT_READY_IND

  /** The channel-update loops as written: cell (set, ch) updates channel
      number ch, whatever the packet's bitmap says. */
  function PktUpdateAsWritten(cs: PC.Channels, p: Packet): (r: PC.Channels)
    requires p.hdr.numSmplSet * p.hdr.numCh <= |p.cells| && p.hdr.numCh <= |cs.info|
    ensures |r.info| == |cs.info| && r.bitmap == cs.bitmap
  {
    E.UpdateSets(cs, p.cells, p.hdr.numCh, E.Ranks(p.hdr.numCh), p.hdr.numSmplSet)
  }

  lemma PktAsWrittenFeedsRanks(cs: PC.Channels, p: Packet, k: nat)
    requires p.hdr.numSmplSet * p.hdr.numCh <= |p.cells| && p.hdr.numCh <= |cs.info| && k < p.hdr.numCh
    ensures PktUpdateAsWritten(cs, p).info[k]
            == PC.Feed(cs.info[k], E.Column(p.cells, p.hdr.numCh, k, p.hdr.numSmplSet))
  {
    E.SetsFeedColumn(cs, p.cells, p.hdr.numCh, E.Ranks(p.hdr.numCh), p.hdr.numSmplSet, k);
  }

  /** The channel that owns column k: the k-th set bit of the packet's bitmap. */
  function Owners(cs: PC.Channels, p: Packet): (r: seq<nat>)
    ensures |r| == PopCount(p.hdr.chBitmap, |cs.info|)
  {
    Members(p.hdr.chBitmap, |cs.info|)
  }

  /** The channel-update loops corrected: column k updates its owner. */
  function PktUpdate(cs: PC.Channels, p: Packet): (r: PC.Channels)
    requires PC.Valid(cs)
    requires p.hdr.numSmplSet * p.hdr.numCh <= |p.cells| && p.hdr.numCh <= PopCount(p.hdr.chBitmap, |cs.info|)
    ensures PC.Valid(r) && |r.info| == |cs.info| && r.bitmap == cs.bitmap
  {
    E.MembersTargetable(cs, p.hdr.chBitmap);
    E.UpdateSets(cs, p.cells, p.hdr.numCh, Owners(cs, p), p.hdr.numSmplSet)
  }

  /** Corrected: each channel owning one of the packet's numCh columns
      receives exactly that column's readings, in set order; every other
      channel is unchanged. */
  lemma PktUpdateFeedsOwners(cs: PC.Channels, p: Packet, j: nat)
    requires PC.Valid(cs)
    requires p.hdr.numSmplSet * p.hdr.numCh <= |p.cells| && p.hdr.numCh <= PopCount(p.hdr.chBitmap, |cs.info|)
    requires j < |cs.info|
    ensures var r := PktUpdate(cs, p);
            var rank := PopCount(p.hdr.chBitmap, j);
            if Bit(p.hdr.chBitmap, j) && rank < p.hdr.numCh
            then r.info[j] == PC.Feed(cs.info[j], E.Column(p.cells, p.hdr.numCh, rank, p.hdr.numSmplSet))
            else r.info[j] == cs.info[j]
  {
    var h := p.hdr;
    var ids := Owners(cs, p);
    MembersAre(h.chBitmap, |cs.info|);
    var rank := PopCount(h.chBitmap, j);
    if Bit(h.chBitmap, j) && rank < h.numCh {
      MemberAtRank(h.chBitmap, |cs.info|, j);
      E.SetsFeedColumn(cs, p.cells, h.numCh, ids, h.numSmplSet, rank);
    } else {
      assert E.Untargeted(ids, h.numCh, j);
      E.SetsMiss(cs, p.cells, h.numCh, ids, h.numSmplSet, j);
    }
  }

  /** As written and corrected agree exactly when the packet's channels
      are channels 0 to numCh - 1: then column k belongs to channel k. */
  lemma PktAsWrittenAgreesOnLowChannels(cs: PC.Channels, p: Packet)
    requires PC.Valid(cs)
    requires p.hdr.numSmplSet * p.hdr.numCh <= |p.cells| && p.hdr.numCh <= |cs.info|
    requires forall i :: 0 <= i < p.hdr.numCh ==> Bit(p.hdr.chBitmap, i)
    ensures p.hdr.numCh <= PopCount(p.hdr.chBitmap, |cs.info|)
    ensures PktUpdateAsWritten(cs, p) == PktUpdate(cs, p)
  {
    var h := p.hdr;
    PopCountLowBits(h.chBitmap, h.numCh, h.numCh);
    PopCountMonotone(h.chBitmap, h.numCh, |cs.info|);
    var a := PktUpdateAsWritten(cs, p);
    var b := PktUpdate(cs, p);
    forall j | 0 <= j < |cs.info|
      ensures a.info[j] == b.info[j]
    {
      PktUpdateFeedsOwners(cs, p, j);
      if j < h.numCh {
        PopCountLowBits(h.chBitmap, h.numCh, j);
        PktAsWrittenFeedsRanks(cs, p, j);
      } else {
        PopCountMonotone(h.chBitmap, h.numCh, j);
        assert E.Untargeted(E.Ranks(h.numCh), h.numCh, j);
        E.SetsMiss(cs, p.cells, h.numCh, E.Ranks(h.numCh), h.numSmplSet, j);
      }
    }
    assert a.info == b.info;
  }

  /** Channels 1 and 3 configured (bitmap 0b1010), one set whose second
      cell is channel 3's reading (5, 9): as written it lands on channel 1
      and channel 3 never moves; corrected, channel 3 receives it. */
  lemma PktAsWrittenMisroutes(cells: seq<(i16, i16)>)
    requires |cells| == 2 && cells[1] == (5, 9)
    ensures var cs := PC.Channels(seq(4, _ => PC.ZERO), 10);
            var p := Packet(0, PS.PktHdr(2, 1, 4, 10, 0, 0), cells, 0);
            PC.Valid(cs) && PopCount(10, 4) == 2
            && PktUpdateAsWritten(cs, p).info[3] == PC.ZERO
            && PktUpdateAsWritten(cs, p).info[1].sumV == 5
            && PktUpdate(cs, p).info[3].sumV == 5
  {
    var cs := PC.Channels(seq(4, _ => PC.ZERO), 10);
    var p := Packet(0, PS.PktHdr(2, 1, 4, 10, 0, 0), cells, 0);
    E.BitsOfTen();
    E.SetsFeedColumn(cs, cells, 2, E.Ranks(2), 1, 1);
    E.SetsMiss(cs, cells, 2, E.Ranks(2), 1, 3);
    PktUpdateFeedsOwners(cs, p, 3);
    assert E.Column(cells, 2, 1, 1) == [(5, 9)];
  }

  // ---------------------------------------------------------------------
  // The handler

  /** svc_PwrMonEh_handler: dispatch on the state. */
  function Handle(pl: Platform, e: Eh, m: Msg): (r: Outcome)
    requires Valid(pl, e) && Fits(pl, m) && pl.size24 != pl.size32
    ensures r.Done? ==> Valid(pl, r.eh)
  {
    match e.state
    case Init => HandleInit(pl, e, m)
    case Configured => HandleConfigured(pl, e, m)
    case Calibration => Done(e, [])
    case Sampling => HandleSampling(pl, e, m)
  }

  /** svc_PwrMonEh_handlerInit. */
  function HandleInit(pl: Platform, e: Eh, m: Msg): (r: Outcome)
    requires Valid(pl, e) && pl.size24 != pl.size32
    ensures r.Done? ==> Valid(pl, r.eh)
  {
    match m.req
    case ConfigReq(fmt, table) =>
      (match Configure(pl, e, fmt, table)
       case None => Fatal
       case Some(c) => Done(c.(state := E.Configured), [StatusCnf(pl, m, PM.ConfigCnf, PM.STATUS_SUCCESS)]))
    case StartReq => Done(e, [StatusCnf(pl, m, PM.StartCnf, PM.STATUS_FAILURE)])
    case StopReq => Done(e, [StatusCnf(pl, m, PM.StopCnf, PM.STATUS_FAILURE)])
    case _ => Done(e, [])
  }

  /** svc_PwrMonEh_handlerConfigured. */
  function HandleConfigured(pl: Platform, e: Eh, m: Msg): (r: Outcome)
    requires Valid(pl, e) && pl.size24 != pl.size32
    ensures r.Done? ==> Valid(pl, r.eh)
  {
    match m.req
    case StartReq =>
      E.BitmapFits(e.chans);
      var st := PS.Start(pl.smp, e.smp, e.chans.bitmap, e.sampleSize);
      Done(e.(smp := st.0, state := E.Sampling), Samplers(st.1) + [StatusCnf(pl, m, PM.StartCnf, PM.STATUS_SUCCESS)])
    case ConfigReq(fmt, table) =>
      (match Configure(pl, e, fmt, table)
       case None => Fatal
       case Some(c) => Done(c, [StatusCnf(pl, m, PM.ConfigCnf, PM.STATUS_SUCCESS)]))
    case StopReq => Done(e, [StatusCnf(pl, m, PM.StopCnf, PM.STATUS_SUCCESS)])
    case _ => Done(e, [])
  }

  /** svc_PwrMonEh_handlerSampling, with the corrected channel update. */
  function HandleSampling(pl: Platform, e: Eh, m: Msg): (r: Outcome)
    requires Valid(pl, e) && Fits(pl, m) && pl.size24 != pl.size32
    ensures r.Done? ==> Valid(pl, r.eh)
  {
    match m.req
    case PktReadyInd(p) =>
      Done(e.(remain := ToI32(p.len), cbSet := true, chans := PktUpdate(e.chans, p)),
           [UsbWrite(p.buf, p.len), Led(E.LedColor(e.smp.stats.pktSndNum))])
    case ConfigReq(fmt, table) =>
      (match Configure(pl, e, fmt, table)
       case None => Fatal
       case Some(c) =>
         E.BitmapFits(c.chans);
         var st := PS.Start(pl.smp, e.smp, c.chans.bitmap, c.sampleSize);
         Done(c.(smp := st.0),
              Samplers([PS.TimerStop]) + Samplers(st.1) + [StatusCnf(pl, m, PM.ConfigCnf, PM.STATUS_SUCCESS)]))
    case StartReq =>
      E.BitmapFits(e.chans);
      var st := PS.Start(pl.smp, e.smp, e.chans.bitmap, e.sampleSize);
      Done(e.(smp := st.0),
           Samplers([PS.TimerStop]) + [StatusCnf(pl, m, PM.StartCnf, PM.STATUS_SUCCESS)] + Samplers(st.1))
    case StopReq =>
      Done(e.(state := E.Configured), Samplers([PS.TimerStop]) + [StatusCnf(pl, m, PM.StopCnf, PM.STATUS_SUCCESS)])
    case _ => Done(e, [])
  }

  // ---------------------------------------------------------------------
  // Callbacks

  /** svc_PwrMonEh_usbConnectionCallback. */
  function Connection(e: Eh, connected: bool): (r: Eh)
    ensures r.connected == connected && r.(connected := e.connected) == e
  {
    e.(connected := connected)
  }

  /** One transmit-done step on the remaining count: int32_t minus size_t,
      wrapped back into int32_t; the sent callback is due once the result
      is not positive. */
  function TxStep(remain: i32, cnt: u32): (r: (i32, bool))
    ensures r.1 <==> r.0 <= 0
    ensures -0x8000_0000 <= remain - cnt ==> r.0 == remain - cnt
  {
    var left := ToI32(remain - cnt);
    (left, left <= 0)
  }

  /** svc_PwrMonEh_usbTxDoneCallback: when the sent callback is due it runs
      the sampler's svc_PwrMon_samplerPktSentCallback, or crashes through
      the NULL pointer if no packet has stored it yet. */
  function TxDone(e: Eh, cnt: u32): (r: Outcome)
    ensures r.Fatal? <==> TxStep(e.remain, cnt).1 && !e.cbSet
    ensures r.Done? ==> r.eh.remain == TxStep(e.remain, cnt).0
    ensures r.Done? ==> (r.outs == [PktSent] <==> TxStep(e.remain, cnt).1) && (r.outs == [] <==> !TxStep(e.remain, cnt).1)
    ensures r.Done? && TxStep(e.remain, cnt).1 ==> r.eh.smp == PS.SentDone(e.smp) && r.eh.smp.pktRemain == 0
    ensures r.Done? && !TxStep(e.remain, cnt).1 ==> r.eh.smp == e.smp
  {
    var step := TxStep(e.remain, cnt);
    if !step.1 then Done(e.(remain := step.0), [])
    else if !e.cbSet then Fatal
    else Done(e.(remain := step.0, smp := PS.SentDone(e.smp)), [PktSent])
  }

  /** svc_PwrMon_pktReady: the sampler's packet becomes a PKT_READY_IND to
      this handler only while USB is connected; otherwise it is dropped. */
  function PktReady(e: Eh, p: Packet): (r: seq<Out>)
    ensures r != [] <==> e.connected
    ensures forall k :: 0 <= k < |r| ==> r[k] == Post(p)
    ensures |r| <= 1
  {
    if e.connected then [Post(p)] else []
  }

  // ---------------------------------------------------------------------
  // Properties

  /** The requests in the terms of PwrMonEh's state and confirm tables,
      which this handler shares. */
  function AsPwrMon(r: Req): E.Req {
    match r
    case ConfigReq(f, t) => E.ConfigReq(f, t)
    case StartReq => E.StartReq
    case StopReq => E.StopReq
    case PktReadyInd(_) => E.Unhandled(0)
    case Unhandled(id) => E.Unhandled(id)
  }

  /** The confirms among a list of outputs. */
  function Cnfs(outs: seq<Out>): (r: seq<Out>)
    ensures forall k :: 0 <= k < |r| ==> r[k].Cnf? && r[k] in outs
  {
    if outs == [] then []
    else (if outs[0].Cnf? then [outs[0]] else []) + Cnfs(outs[1..])
  }

  lemma {:induction false} CnfsAppend(a: seq<Out>, b: seq<Out>)
    ensures Cnfs(a + b) == Cnfs(a) + Cnfs(b)
    decreases |a|
  {
    if a == [] {
      assert a + b == b;
    } else {
      assert (a + b)[0] == a[0];
      assert (a + b)[1..] == a[1..] + b;
      CnfsAppend(a[1..], b);
      var x := if a[0].Cnf? then [a[0]] else [];
      assert x + (Cnfs(a[1..]) + Cnfs(b)) == (x + Cnfs(a[1..])) + Cnfs(b);
    }
  }

  lemma {:induction false} NoCnfsFromSampler(es: seq<PS.Effect>)
    ensures Cnfs(Samplers(es)) == []
    decreases |es|
  {
    if es != [] {
      assert Samplers(es)[1..] == Samplers(es[1..]);
      NoCnfsFromSampler(es[1..]);
    }
  }

  lemma OneOut(o: Out)
    ensures Cnfs([o]) == if o.Cnf? then [o] else []
  {
    assert [o][1..] == [];
  }

  /** The confirm the tables call for, addressed to the requester. */
  function Wanted(pl: Platform, e: Eh, m: Msg): seq<Out> {
    match E.Expected(e.state, AsPwrMon(m.req))
    case None => []
    case Some(x) => [StatusCnf(pl, m, x.0, if x.1 then PM.STATUS_FAILURE else PM.STATUS_SUCCESS)]
  }

  predicate Follows(pl: Platform, e: Eh, m: Msg, r: Outcome) {
    r.Done? ==> r.eh.state == E.NextState(e.state, AsPwrMon(m.req)) && Cnfs(r.outs) == Wanted(pl, e, m)
  }

  /** A configuration naming a channel beyond the table is the only fatal
      message, outside CALIBRATION. */
  lemma HandleFatal(pl: Platform, e: Eh, m: Msg)
    requires Valid(pl, e) && Fits(pl, m) && pl.size24 != pl.size32
    ensures Handle(pl, e, m).Fatal? <==>
              m.req.ConfigReq? && e.state != E.Calibration
              && exists k :: 0 <= k < |m.req.table| && m.req.table[k].chId >= pl.smp.numChannels
  {
    if m.req.ConfigReq? {
      var ok := Configure(pl, e, m.req.smplFmt, m.req.table).Some?;
      assert e.state != E.Calibration ==> (Handle(pl, e, m).Fatal? <==> !ok);
    }
  }

  /** Handling moves along the shared state table and sends exactly the
      confirm the shared confirm table names, with its status. */
  lemma HandleFollowsTables(pl: Platform, e: Eh, m: Msg)
    requires Valid(pl, e) && Fits(pl, m) && pl.size24 != pl.size32
    ensures Follows(pl, e, m, Handle(pl, e, m))
  {
    match e.state
    case Init => InitFollows(pl, e, m);
    case Configured => ConfiguredFollows(pl, e, m);
    case Calibration =>
    case Sampling => SamplingFollows(pl, e, m);
  }

  lemma InitFollows(pl: Platform, e: Eh, m: Msg)
    requires Valid(pl, e) && pl.size24 != pl.size32 && e.state == E.Init
    ensures Follows(pl, e, m, HandleInit(pl, e, m))
  {
    var r := HandleInit(pl, e, m);
    match m.req
    case ConfigReq(_, _) =>
      var c := StatusCnf(pl, m, PM.ConfigCnf, PM.STATUS_SUCCESS);
      if r.Done? {
        assert r.outs == [c];
        OneOut(c);
        assert Wanted(pl, e, m) == [c];
      }
    case StartReq =>
      var c := StatusCnf(pl, m, PM.StartCnf, PM.STATUS_FAILURE);
      assert r.outs == [c];
      OneOut(c);
      assert Wanted(pl, e, m) == [c];
    case StopReq =>
      var c := StatusCnf(pl, m, PM.StopCnf, PM.STATUS_FAILURE);
      assert r.outs == [c];
      OneOut(c);
      assert Wanted(pl, e, m) == [c];
    case PktReadyInd(_) =>
      assert r == Done(e, []);
    case Unhandled(_) =>
      assert r == Done(e, []);
  }

  lemma ConfiguredFollows(pl: Platform, e: Eh, m: Msg)
    requires Valid(pl, e) && pl.size24 != pl.size32 && e.state == E.Configured
    ensures Follows(pl, e, m, HandleConfigured(pl, e, m))
  {
    if m.req.StartReq? {
      ConfiguredStartFollows(pl, e, m);
    } else {
      ConfiguredOtherFollows(pl, e, m);
    }
  }

  lemma ConfiguredStartFollows(pl: Platform, e: Eh, m: Msg)
    requires Valid(pl, e) && pl.size24 != pl.size32 && e.state == E.Configured && m.req.StartReq?
    ensures Follows(pl, e, m, HandleConfigured(pl, e, m))
  {
    ConfiguredStartCnfs(pl, e, m);
    assert E.NextState(e.state, AsPwrMon(m.req)) == E.Sampling;
    assert Wanted(pl, e, m) == [StatusCnf(pl, m, PM.StartCnf, PM.STATUS_SUCCESS)];
  }

  lemma ConfiguredOtherFollows(pl: Platform, e: Eh, m: Msg)
    requires Valid(pl, e) && pl.size24 != pl.size32 && e.state == E.Configured && !m.req.StartReq?
    ensures Follows(pl, e, m, HandleConfigured(pl, e, m))
  {
    var r := HandleConfigured(pl, e, m);
    match m.req
    case ConfigReq(_, _) =>
      var c := StatusCnf(pl, m, PM.ConfigCnf, PM.STATUS_SUCCESS);
      if r.Done? {
        assert r.outs == [c];
        OneOut(c);
        assert Wanted(pl, e, m) == [c];
      }
    case StopReq =>
      var c := StatusCnf(pl, m, PM.StopCnf, PM.STATUS_SUCCESS);
      assert r.outs == [c];
      OneOut(c);
      assert Wanted(pl, e, m) == [c];
    case PktReadyInd(_) =>
      assert r == Done(e, []);
    case Unhandled(_) =>
      assert r == Done(e, []);
  }

  lemma ConfiguredStartCnfs(pl: Platform, e: Eh, m: Msg)
    requires Valid(pl, e) && pl.size24 != pl.size32 && e.state == E.Configured && m.req.StartReq?
    ensures Cnfs(HandleConfigured(pl, e, m).outs) == [StatusCnf(pl, m, PM.StartCnf, PM.STATUS_SUCCESS)]
  {
    E.BitmapFits(e.chans);
    var st := PS.Start(pl.smp, e.smp, e.chans.bitmap, e.sampleSize);
    var c := StatusCnf(pl, m, PM.StartCnf, PM.STATUS_SUCCESS);
    assert HandleConfigured(pl, e, m).outs == Samplers(st.1) + [c];
    CnfsAppend(Samplers(st.1), [c]);
    NoCnfsFromSampler(st.1);
    OneOut(c);
  }

  lemma SamplingFollows(pl: Platform, e: Eh, m: Msg)
    requires Valid(pl, e) && Fits(pl, m) && pl.size24 != pl.size32 && e.state == E.Sampling
    ensures Follows(pl, e, m, HandleSampling(pl, e, m))
  {
    match m.req
    case PktReadyInd(p) => SamplingPacketFollows(pl, e, m);
    case ConfigReq(fmt, table) =>
      if Configure(pl, e, fmt, table).Some? {
        SamplingConfigCnfs(pl, e, m);
        SamplingConfigFollows(pl, e, m);
      } else {
        assert HandleSampling(pl, e, m) == Fatal;
      }
    case StartReq =>
      SamplingStartCnfs(pl, e, m);
      SamplingStartFollows(pl, e, m);
    case StopReq => SamplingStopFollows(pl, e, m);
    case Unhandled(_) =>
      assert HandleSampling(pl, e, m) == Done(e, []);
  }

  lemma SamplingPacketFollows(pl: Platform, e: Eh, m: Msg)
    requires Valid(pl, e) && Fits(pl, m) && pl.size24 != pl.size32 && e.state == E.Sampling && m.req.PktReadyInd?
    ensures Follows(pl, e, m, HandleSampling(pl, e, m))
  {
    var p := m.req.pkt;
    var o := [UsbWrite(p.buf, p.len), Led(E.LedColor(e.smp.stats.pktSndNum))];
    assert HandleSampling(pl, e, m).outs == o;
    assert o == [o[0]] + [o[1]];
    CnfsAppend([o[0]], [o[1]]);
    OneOut(o[0]);
    OneOut(o[1]);
    assert Wanted(pl, e, m) == [];
  }

  lemma SamplingConfigFollows(pl: Platform, e: Eh, m: Msg)
    requires Valid(pl, e) && pl.size24 != pl.size32 && e.state == E.Sampling && m.req.ConfigReq?
    requires Configure(pl, e, m.req.smplFmt, m.req.table).Some?
    requires Cnfs(HandleSampling(pl, e, m).outs) == [StatusCnf(pl, m, PM.ConfigCnf, PM.STATUS_SUCCESS)]
    ensures Follows(pl, e, m, HandleSampling(pl, e, m))
  {
    assert HandleSampling(pl, e, m).eh.state == E.Sampling;
    assert Wanted(pl, e, m) == [StatusCnf(pl, m, PM.ConfigCnf, PM.STATUS_SUCCESS)];
  }

  lemma SamplingStartFollows(pl: Platform, e: Eh, m: Msg)
    requires Valid(pl, e) && pl.size24 != pl.size32 && e.state == E.Sampling && m.req.StartReq?
    requires Cnfs(HandleSampling(pl, e, m).outs) == [StatusCnf(pl, m, PM.StartCnf, PM.STATUS_SUCCESS)]
    ensures Follows(pl, e, m, HandleSampling(pl, e, m))
  {
    assert HandleSampling(pl, e, m).eh.state == E.Sampling;
    assert Wanted(pl, e, m) == [StatusCnf(pl, m, PM.StartCnf, PM.STATUS_SUCCESS)];
  }

  lemma SamplingStopFollows(pl: Platform, e: Eh, m: Msg)
    requires Valid(pl, e) && pl.size24 != pl.size32 && e.state == E.Sampling && m.req.StopReq?
    ensures Follows(pl, e, m, HandleSampling(pl, e, m))
  {
    var cnf := StatusCnf(pl, m, PM.StopCnf, PM.STATUS_SUCCESS);
    assert HandleSampling(pl, e, m).outs == Samplers([PS.TimerStop]) + [cnf];
    NoCnfsFromSampler([PS.TimerStop]);
    CnfsAppend(Samplers([PS.TimerStop]), [cnf]);
    OneOut(cnf);
    assert Wanted(pl, e, m) == [cnf];
  }

  lemma SamplingConfigCnfs(pl: Platform, e: Eh, m: Msg)
    requires Valid(pl, e) && pl.size24 != pl.size32 && e.state == E.Sampling && m.req.ConfigReq?
    requires Configure(pl, e, m.req.smplFmt, m.req.table).Some?
    ensures Cnfs(HandleSampling(pl, e, m).outs) == [StatusCnf(pl, m, PM.ConfigCnf, PM.STATUS_SUCCESS)]
  {
    var stop := Samplers([PS.TimerStop]);
    var c := Configure(pl, e, m.req.smplFmt, m.req.table).value;
    E.BitmapFits(c.chans);
    var st := PS.Start(pl.smp, e.smp, c.chans.bitmap, c.sampleSize);
    var cnf := StatusCnf(pl, m, PM.ConfigCnf, PM.STATUS_SUCCESS);
    assert HandleSampling(pl, e, m).outs == stop + Samplers(st.1) + [cnf];
    CnfsAppend(stop + Samplers(st.1), [cnf]);
    CnfsAppend(stop, Samplers(st.1));
    NoCnfsFromSampler([PS.TimerStop]);
    NoCnfsFromSampler(st.1);
    OneOut(cnf);
  }

  lemma SamplingStartCnfs(pl: Platform, e: Eh, m: Msg)
    requires Valid(pl, e) && pl.size24 != pl.size32 && e.state == E.Sampling && m.req.StartReq?
    ensures Cnfs(HandleSampling(pl, e, m).outs) == [StatusCnf(pl, m, PM.StartCnf, PM.STATUS_SUCCESS)]
  {
    var stop := Samplers([PS.TimerStop]);
    E.BitmapFits(e.chans);
    var st := PS.Start(pl.smp, e.smp, e.chans.bitmap, e.sampleSize);
    var cnf := StatusCnf(pl, m, PM.StartCnf, PM.STATUS_SUCCESS);
    assert HandleSampling(pl, e, m).outs == stop + [cnf] + Samplers(st.1);
    CnfsAppend(stop + [cnf], Samplers(st.1));
    CnfsAppend(stop, [cnf]);
    NoCnfsFromSampler([PS.TimerStop]);
    NoCnfsFromSampler(st.1);
    OneOut(cnf);
  }

  /** A packet posted while connected is, once handled in SAMPLING, written
      to USB whole: the remaining count becomes its length and the sent
      callback is armed. In any other state it is dropped unwritten. */
  lemma PostedPacketIsWritten(pl: Platform, e: Eh, p: Packet)
    requires Valid(pl, e) && pl.size24 != pl.size32 && e.connected
    requires p.hdr.numSmplSet * p.hdr.numCh <= |p.cells| && p.hdr.numCh <= PopCount(p.hdr.chBitmap, pl.smp.numChannels)
    ensures PktReady(e, p) == [Post(p)]
    ensures var r := Handle(pl, e, Msg(pl.self, PktReadyInd(p)));
            r.Done? && r.eh.state == e.state
            && (e.state == E.Sampling ==>
                  r.outs[0] == UsbWrite(p.buf, p.len) && r.eh.cbSet && r.eh.smp == e.smp
                  && (p.len < 0x8000_0000 ==> r.eh.remain == p.len))
            && (e.state != E.Sampling ==> r.outs == [] && r.eh == e)
  {
  }

  /** The bytes acknowledged by successive transmit-done callbacks. */
  function Sum(cnts: seq<u32>): nat {
    if cnts == [] then 0 else cnts[0] + Sum(cnts[1..])
  }

  /** Whether each of successive transmit-done callbacks calls the sent
      callback, starting from `remain`. */
  function Fires(remain: i32, cnts: seq<u32>): (r: seq<bool>)
    ensures |r| == |cnts|
    decreases |cnts|
  {
    if cnts == [] then []
    else
      var s := TxStep(remain, cnts[0]);
      [s.1] + Fires(s.0, cnts[1..])
  }

  /** Without wrap-around, callback k fires exactly when the first k + 1
      counts have used up the remaining bytes. */
  lemma {:induction false} FiresWhenDrained(remain: i32, cnts: seq<u32>, k: nat)
    requires -0x8000_0000 <= remain - Sum(cnts) && k < |cnts|
    ensures Fires(remain, cnts)[k] <==> Sum(cnts[..k + 1]) >= remain
    decreases |cnts|
  {
    var s := TxStep(remain, cnts[0]);
    SumFront(cnts);
    assert s.0 == remain - cnts[0];
    if k == 0 {
      assert cnts[..1] == [cnts[0]];
      assert Sum(cnts[..1]) == cnts[0] + Sum([]);
    } else {
      FiresWhenDrained(s.0, cnts[1..], k - 1);
      assert cnts[1..][..k] == cnts[..k + 1][1..];
      assert Sum(cnts[..k + 1]) == cnts[0] + Sum(cnts[1..][..k]);
    }
  }

  lemma SumFront(cnts: seq<u32>)
    requires cnts != []
    ensures Sum(cnts) == cnts[0] + Sum(cnts[1..])
  {
  }

  /** A packet of len bytes acknowledged in positive chunks that add up to
      len reaches its sent callback exactly once, on the last chunk. */
  lemma {:induction false} SentOnceAtEnd(len: u32, cnts: seq<u32>, k: nat)
    requires len < 0x8000_0000 && Sum(cnts) == len && k < |cnts|
    requires forall i :: 0 <= i < |cnts| ==> cnts[i] > 0
    ensures Fires(len, cnts)[k] <==> k == |cnts| - 1
  {
    FiresWhenDrained(len, cnts, k);
    assert cnts[..|cnts|] == cnts;
    if k < |cnts| - 1 {
      SumSplit(cnts, k + 1);
    }
  }

  /** Dropping a non-empty tail of positive counts lowers the sum. */
  lemma {:induction false} SumSplit(cnts: seq<u32>, n: nat)
    requires n < |cnts| && forall i :: 0 <= i < |cnts| ==> cnts[i] > 0
    ensures Sum(cnts[..n]) < Sum(cnts)
    decreases n
  {
    if n == 0 {
      assert cnts[..0] == [];
    } else {
      SumSplit(cnts[1..], n - 1);
      assert cnts[..n][1..] == cnts[1..][..n - 1];
      assert Sum(cnts[..n]) == cnts[0] + Sum(cnts[..n][1..]);
    }
  }
}
