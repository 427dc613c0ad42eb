/** The power-monitor event handler's messages (svc_PwrMonEh.h): fifteen
    message numbers turned into framework ids, status and sample-format
    codes, the data indication's bit-field header and its 4-byte sample
    cells, and the stats and channel-average confirm payloads. The entity
    id of the handler is a product constant, so it is a parameter here. */
module PwrMonMsgs {
  import opened Wrappers
  import opened Bytes
  import M = MsgFwk
  import HP = HostPwrMon
  import HS = HostSample
  import Bits

  const CH_NAME_LEN: nat := 40

  const STATUS_SUCCESS: u8 := 0
  const STATUS_FAILURE: u8 := 1

  const SMPL_NO_STREAM: u8 := 0
  const SMPL_FMT1_VV: u8 := 1
  const SMPL_FMT2_P: u8 := 2

  datatype MsgName =
    | StartReq | StartCnf | StopReq | StopCnf | StopInd | ConfigReq | ConfigCnf
    | DataInd | StatsReq | StatsCnf | ChAvgReq | ChAvgCnf | SampleInd | CalReq | CalCnf

  /** SVC_PWRMONEH_MSG_ID_*: the message numbers 0 to 14 in declaration order. */
  function Num(n: MsgName): (r: M.MsgNum)
    ensures r < 15
  {
    match n
    case StartReq => 0
    case StartCnf => 1
    case StopReq => 2
    case StopCnf => 3
    case StopInd => 4
    case ConfigReq => 5
    case ConfigCnf => 6
    case DataInd => 7
    case StatsReq => 8
    case StatsCnf => 9
    case ChAvgReq => 10
    case ChAvgCnf => 11
    case SampleInd => 12
    case CalReq => 13
    case CalCnf => 14
  }

  predicate IsRequest(n: MsgName) {
    n == StartReq || n == StopReq || n == ConfigReq || n == StatsReq || n == ChAvgReq || n == CalReq
  }

  /** SCV_PWRMONEH_MSG_ID_BUILD(name, type): requests are built with the
      REQ type, confirms and indications with the CNF type. */
  function Id(eh: u8, n: MsgName): (id: u16)
    ensures M.EhGet(id) == eh && M.NumGet(id) == Num(n)
    ensures M.TypeGet(id) == (if IsRequest(n) then M.REQ_RSP else M.CNF_IND)
  {
    M.IdBuild(eh, if IsRequest(n) then M.REQ_RSP else M.CNF_IND, Num(n))
  }

  /** The message a received id names, if it names one of this handler's. */
  function NameOf(eh: u8, id: u16): (r: Option<MsgName>)
  {
    if M.EhGet(id) != eh then None
    else
      var names := [StartReq, StartCnf, StopReq, StopCnf, StopInd, ConfigReq, ConfigCnf,
                    DataInd, StatsReq, StatsCnf, ChAvgReq, ChAvgCnf, SampleInd, CalReq, CalCnf];
      var k := M.NumGet(id);
      if k < 15 && Id(eh, names[k]) == id then Some(names[k]) else None
  }

  /** Every id decodes to the message it was built for, and an id decodes
      to a message only when it is that message's id: the fifteen ids are
      distinct, so the handlers' switch statements see each case once. */
  lemma IdRoundTrip(eh: u8, n: MsgName, id: u16)
    ensures NameOf(eh, Id(eh, n)) == Some(n)
    ensures NameOf(eh, id) == Some(n) ==> Id(eh, n) == id
  {
  }

  lemma IdsDistinct(eh: u8, a: MsgName, b: MsgName)
    ensures Id(eh, a) == Id(eh, b) <==> a == b
  {
    IdRoundTrip(eh, a, Id(eh, a));
    IdRoundTrip(eh, b, Id(eh, b));
  }

  // ---------------------------------------------------------------------
  // Data indication

  const DATA_IND_CHANNELS_MAX: nat := 11
  const DATA_IND_SAMPLE_SETS_MAX: nat := 50
  /** Room for a header cell plus eleven channels in each of 50 sets. */
  const DATA_IND_CELLS: nat := DATA_IND_SAMPLE_SETS_MAX * (DATA_IND_CHANNELS_MAX + 1)
  /** The bytes between the framework header and the first cell. */
  const DATA_IND_HDR_SIZE: nat := 10
  const DATA_IND_SIZE: nat := M.HDR_SIZE + DATA_IND_HDR_SIZE + 4 * DATA_IND_CELLS

  type Bits6 = x: int | 0 <= x < 64
  type Bits4 = x: int | 0 <= x < 16

  /** The fields after the framework header: numCh:6, numSmplSet:6 and
      smplFmt:4 share one 16-bit unit, then seq, chBitmap, smplStartIdx. */
  datatype DataIndHdr = DataIndHdr(numCh: Bits6, numSmplSet: Bits6, smplFmt: Bits4,
                                   seqNo: u16, chBitmap: u16, smplStartIdx: u32)

  /** The 16-bit unit holding the three bit-fields, the first declared in
      the lowest bits as GCC lays out little-endian bit-fields. */
  function BitFieldWord(numCh: Bits6, numSmplSet: Bits6, smplFmt: Bits4): (w: u16)
    ensures w % 64 == numCh && (w / 64) % 64 == numSmplSet && w / 4096 == smplFmt
  {
    var w := numCh + 64 * numSmplSet + 4096 * smplFmt;
    DivMul(numSmplSet + 64 * smplFmt, numCh, 64);
    assert (numSmplSet + 64 * smplFmt) * 64 + numCh == w;
    DivMul(smplFmt, numSmplSet, 64);
    w
  }

  function DataIndHdrBytes(h: DataIndHdr): (r: seq<u8>)
    ensures |r| == DATA_IND_HDR_SIZE
  {
    U16(BitFieldWord(h.numCh, h.numSmplSet, h.smplFmt)) + U16(h.seqNo) + U16(h.chBitmap) + U32(h.smplStartIdx)
  }

  /** Reading the ten header bytes back into fields. */
  function ParseDataIndHdr(b: seq<u8>): (r: Option<DataIndHdr>)
    ensures r.Some? <==> |b| >= DATA_IND_HDR_SIZE
  {
    if |b| < DATA_IND_HDR_SIZE then None
    else
      Pow256Values();
      var w := Field(b, 0, 2);
      Some(DataIndHdr(w % 64, (w / 64) % 64, w / 4096, Field(b, 2, 2), Field(b, 4, 2), Field(b, 6, 4)))
  }

  /** Reading a written header gives back every field. */
  lemma DataIndHdrRoundTrip(h: DataIndHdr)
    ensures ParseDataIndHdr(DataIndHdrBytes(h)) == Some(h)
  {
    var b := DataIndHdrBytes(h);
    var w := BitFieldWord(h.numCh, h.numSmplSet, h.smplFmt);
    assert b[0..2] == U16(w) && b[2..4] == U16(h.seqNo);
    assert b[4..6] == U16(h.chBitmap) && b[6..10] == U32(h.smplStartIdx);
  }

  /** Every ten bytes are the image of the header they read as. */
  lemma DataIndHdrBytesOfParse(b: seq<u8>)
    requires |b| == DATA_IND_HDR_SIZE
    ensures DataIndHdrBytes(ParseDataIndHdr(b).value) == b
  {
    var h := ParseDataIndHdr(b).value;
    Pow256Values();
    var w := Field(b, 0, 2);
    assert BitFieldWord(h.numCh, h.numSmplSet, h.smplFmt) == w by {
      WordOfFields(w);
    }
    LEOfFromLE(b[0..2]);
    LEOfFromLE(b[2..4]);
    LEOfFromLE(b[4..6]);
    LEOfFromLE(b[6..10]);
    assert b == b[0..2] + b[2..4] + b[4..6] + b[6..10];
  }

  lemma WordOfFields(w: u16)
    ensures w % 64 + 64 * ((w / 64) % 64) + 4096 * (w / 4096) == w
  {
    Bits.DivDiv(w, 64, 64);
  }

  /** The byte offset, inside the whole message, of data cell k. */
  function CellOffset(k: nat): (r: nat)
    requires k < DATA_IND_CELLS
    ensures r + 4 <= DATA_IND_SIZE
    ensures r % 4 == 0
  {
    M.HDR_SIZE + DATA_IND_HDR_SIZE + 4 * k
  }

  /** One sample cell, a union of three 4-byte views. */
  datatype Cell =
    | HdrCell(ioBitmap: u16, chBitmap: u16)
    | Fmt0(vBus: i16, vShunt: i16)
    | Fmt1(power: i32)

  function CellBytes(c: Cell): (r: seq<u8>)
    ensures |r| == 4
  {
    match c
    case HdrCell(io, ch) => U16(io) + U16(ch)
    case Fmt0(vBus, vShunt) => U16(U16Of(vBus)) + U16(U16Of(vShunt))
    case Fmt1(power) => U32(U32Of(power))
  }

  /** The three ways the union reads four bytes. */
  function AsHdr(b: seq<u8>): (r: Cell)
    requires |b| == 4
    ensures r.HdrCell?
  {
    Pow256Values();
    HdrCell(Field(b, 0, 2), Field(b, 2, 2))
  }

  function AsFmt0(b: seq<u8>): (r: Cell)
    requires |b| == 4
    ensures r.Fmt0?
  {
    Pow256Values();
    Fmt0(I16Of(Field(b, 0, 2)), I16Of(Field(b, 2, 2)))
  }

  function AsFmt1(b: seq<u8>): (r: Cell)
    requires |b| == 4
    ensures r.Fmt1?
  {
    Pow256Values();
    Fmt1(I32Of(Field(b, 0, 4)))
  }

  /** Each view reads back the cell written through it. */
  lemma CellRoundTrip(c: Cell)
    ensures c.HdrCell? ==> AsHdr(CellBytes(c)) == c
    ensures c.Fmt0? ==> AsFmt0(CellBytes(c)) == c
    ensures c.Fmt1? ==> AsFmt1(CellBytes(c)) == c
  {
    var b := CellBytes(c);
    match c
    case HdrCell(io, ch) =>
      assert b[0..2] == U16(io) && b[2..4] == U16(ch);
    case Fmt0(vBus, vShunt) =>
      assert b[0..2] == U16(U16Of(vBus)) && b[2..4] == U16(U16Of(vShunt));
    case Fmt1(power) =>
      assert b[0..4] == b;
  }

  /** The host reads a cell as one little-endian word; its format-0 and
      format-1 decoders return the values the firmware stored. */
  lemma HostReadsCells(c: Cell)
    ensures c.Fmt0? ==> HS.SampleFmt0(FromLE(CellBytes(c))) == (c.vBus, c.vShunt)
    ensures c.Fmt1? ==> HS.SampleFmt1(FromLE(CellBytes(c))) == c.power
  {
    Pow256Values();
    match c
    case HdrCell(_, _) =>
    case Fmt0(vBus, vShunt) =>
      var lo := U16(U16Of(vBus));
      var hi := U16(U16Of(vShunt));
      FromLEAppend(lo, hi);
      DivMul(U16Of(vShunt), U16Of(vBus), 0x1_0000);
    case Fmt1(power) =>
  }

  lemma FromLEAppend(a: seq<u8>, b: seq<u8>)
    requires |a| == 2
    ensures FromLE(a + b) == FromLE(a) + 0x1_0000 * FromLE(b)
  {
    assert (a + b)[1..] == [a[1]] + b;
    assert ([a[1]] + b)[1..] == b;
    assert a[1..][1..] == [];
  }

  // ---------------------------------------------------------------------
  // Confirms

  /** svc_PwrMonEh_SamplerStats_t followed by svc_PwrMonEh_ChannelStats_t. */
  datatype Stats = Stats(smplNum: u64, smplErrNum: u32, pktSndNum: u32, pktErrNum: u32)

  const STATS_SIZE: nat := 20

  function StatsBytes(s: Stats): (r: seq<u8>)
    ensures |r| == STATS_SIZE
  {
    U64(s.smplNum) + U32(s.smplErrNum) + U32(s.pktSndNum) + U32(s.pktErrNum)
  }

  /** The firmware's stats confirm payload is the host's "<QLLL": the host
      reads back the four counters in the same order. */
  lemma HostReadsStats(s: Stats)
    ensures HP.ParseStats(StatsBytes(s)) == Success(HP.Stats(s.smplNum, s.smplErrNum, s.pktSndNum, s.pktErrNum))
  {
    HP.StatsRoundTrip(HP.Stats(s.smplNum, s.smplErrNum, s.pktSndNum, s.pktErrNum));
  }

  /** One entry of a channel-average confirm as svc_PwrMon_channelAvgGetAll
      fills it: the channel id and a format-0 cell of the two averages. */
  datatype ChAvgEntry = ChAvgEntry(chId: u8, v: i16, i: i16)

  function ChAvgEntryBytes(e: ChAvgEntry): (r: seq<u8>)
    ensures |r| == 5
  {
    [e.chId] + CellBytes(Fmt0(e.v, e.i))
  }

  function ChAvgEntriesBytes(es: seq<ChAvgEntry>): (r: seq<u8>)
    ensures |r| == 5 * |es|
  {
    if |es| == 0 then [] else ChAvgEntriesBytes(es[..|es| - 1]) + ChAvgEntryBytes(es[|es| - 1])
  }

  /** The confirm payload: chCnt, then the entries. */
  function ChAvgCnfPayload(es: seq<ChAvgEntry>): (r: seq<u8>)
    requires |es| < 0x100
    ensures |r| == 1 + 5 * |es| && r[0] == |es|
  {
    [|es|] + ChAvgEntriesBytes(es)
  }

  /** The entry the host decodes: the same id, and each average as the
      unsigned 16-bit pattern "<BHH" reads. */
  function HostView(e: ChAvgEntry): (r: HP.ChAvg)
    ensures I16Of(r.v) == e.v && I16Of(r.i) == e.i && r.id == e.chId
  {
    HP.ChAvg(e.chId, U16Of(e.v), U16Of(e.i))
  }

  function HostViews(es: seq<ChAvgEntry>): (r: seq<HP.ChAvg>)
    ensures |r| == |es| && forall k :: 0 <= k < |es| ==> r[k] == HostView(es[k])
  {
    if |es| == 0 then [] else HostViews(es[..|es| - 1]) + [HostView(es[|es| - 1])]
  }

  /** The host decodes the firmware's channel-average confirm into the same
      channels, in the same order, with the same averages. */
  lemma {:induction false} HostReadsChAvgs(es: seq<ChAvgEntry>)
    requires |es| < 0x100
    ensures HP.ParseChAvgs(ChAvgCnfPayload(es)) == Success(HostViews(es))
  {
    SameEntryBytes(es);
    HP.ChAvgsRoundTrip(HostViews(es));
  }

  lemma {:induction false} SameEntryBytes(es: seq<ChAvgEntry>)
    ensures ChAvgEntriesBytes(es) == HP.ChAvgsBytes(HostViews(es))
  {
    if |es| > 0 {
      var front := es[..|es| - 1];
      SameEntryBytes(front);
      assert HostViews(es)[..|es| - 1] == HostViews(front);
      var e := es[|es| - 1];
      assert HP.ChAvgBytes(HostView(e)) == ChAvgEntryBytes(e);
    }
  }
}
