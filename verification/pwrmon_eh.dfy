/** The power-monitor event handler (svc_PwrMonEh.c): a four-state machine
    over the PwrMon requests. It configures the channel table, starts and
    stops the packet sampler, folds the packets it receives back into the
    channel averages, and answers every request with a confirm addressed to
    the requesting handler. Log output is left out. */
module PwrMonEh {
  import opened Wrappers
  import opened Bytes
  import opened Bits
  import PM = PwrMonMsgs
  import PC = PwrMonChannel
  import PS = PwrMonSampler

  datatype State = Init | Configured | Calibration | Sampling

  /** svc_PwrMonEh_ChEntry_t: one channel of a configuration request. */
  datatype ChEntry = ChEntry(chId: u8, shuntVal: u32, name: string)

  /** What a received message asks for, by its id. `Unhandled` stands for
      every other id (CAL_REQ, confirms, foreign messages). */
  datatype Req =
    | StatsReq(reset: bool)
    | ChAvgReq(reset: bool)
    | ConfigReq(smplFmt: u8, table: seq<ChEntry>)
    | StartReq
    | StopReq
    | DataInd(hdr: PM.DataIndHdr, cells: seq<(i16, i16)>)
    | Unhandled(id: u16)

  /** A message: the header's eh field (the handler to answer) and the request. */
  datatype Msg = Msg(eh: u8, req: Req)

  datatype CnfBody =
    | Status(status: u8)
    | StatsBody(stats: PM.Stats)
    | ChAvgBody(chCnt: u8, entries: seq<PM.ChAvgEntry>)

  /** What handling a message does outside the handler's own state: a
      confirm sent through the framework, a sampler effect, an LED colour. */
  datatype Out =
    | Cnf(dest: u8, id: u16, body: CnfBody)
    | Sampler(e: PS.Effect)
    | Led(color: nat)

  /** The handler's globals plus the channel table and the sampler it owns. */
  datatype Eh = Eh(state: State, smplFmt: u8, chans: PC.Channels, smp: PS.Ctx)

  /** A BSP_ASSERT failure (a channel id beyond the table) ends in `Fatal`. */
  datatype Outcome = Done(eh: Eh, outs: seq<Out>) | Fatal

  /** Build-time facts: the handler's own id, the sampler's constants (whose
      channel count is the platform's) and the value of
      SVC_PWRMONEH_SMPL_FMT0_IV, which no header of the model defines. */
  datatype Platform = Platform(self: u8, smp: PS.Params, fmt0Iv: nat)

  const WHITE: nat := 0x00FF_FFFF

  predicate Valid(pl: Platform, e: Eh) {
    PC.Valid(e.chans) && |e.chans.info| == pl.smp.numChannels && PS.Shape(e.smp)
  }

  /** A data indication fills its data area as the sampler lays it out:
      numSmplSet rows of numCh cells, one column per configured channel. */
  predicate Fits(pl: Platform, m: Msg) {
    m.req.DataInd? ==>
      |m.req.cells| == PM.DATA_IND_CELLS
      && m.req.hdr.numSmplSet * m.req.hdr.numCh <= PM.DATA_IND_CELLS
      && m.req.hdr.numCh <= PopCount(m.req.hdr.chBitmap, pl.smp.numChannels)
  }

  /** svc_PwrMonEh_init: state INIT, channel table and sampler initialised. */
  function EhInit(pl: Platform): (r: Outcome)
    requires pl.smp.numChannels <= PC.BITMAP_BITS
    ensures r.Done? && Valid(pl, r.eh) && r.eh.state == Init
    ensures r.eh.chans.bitmap == 0 && r.outs == [Sampler(PS.TimerStop)]
  {
    var s := PS.Init();
    Done(Eh(Init, 0, PC.Init(pl.smp.numChannels), s.0), Samplers(s.1))
  }

  function Samplers(es: seq<PS.Effect>): (r: seq<Out>)
    ensures |r| == |es| && forall k :: 0 <= k < |es| ==> r[k] == Sampler(es[k])
  {
    seq(|es|, k requires 0 <= k < |es| => Sampler(es[k]))
  }

  function StatusCnf(pl: Platform, m: Msg, n: PM.MsgName, status: u8): Out {
    Cnf(m.eh, PM.Id(pl.self, n), Status(status))
  }

  // ---------------------------------------------------------------------
  // Configuration requests

  /** svc_PwrMonEh_processConfigReq's loop: configure each listed channel in
      order. svc_PwrMon_channelConfig asserts the id is in the table. */
  function ProcessConfig(cs: PC.Channels, table: seq<ChEntry>): (r: Option<PC.Channels>)
    requires PC.Valid(cs)
    ensures r.Some? <==> forall k :: 0 <= k < |table| ==> table[k].chId < |cs.info|
    ensures r.Some? ==> PC.Valid(r.value) && |r.value.info| == |cs.info|
    decreases |table|
  {
    if |table| == 0 then Some(cs)
    else if table[0].chId >= |cs.info| then None
    else
      var r := ProcessConfig(PC.Config(cs, table[0].chId, table[0].shuntVal, table[0].name), table[1..]);
      assert forall k :: 1 <= k < |table| ==> table[k] == table[1..][k - 1];
      r
  }

  /** A configuration adds exactly the listed channels to the bitmap. */
  lemma {:induction false} ConfigBitmap(cs: PC.Channels, table: seq<ChEntry>, j: nat)
    requires PC.Valid(cs) && ProcessConfig(cs, table).Some?
    ensures Bit(ProcessConfig(cs, table).value.bitmap, j)
            <==> Bit(cs.bitmap, j) || exists k :: 0 <= k < |table| && table[k].chId == j
    decreases |table|
  {
    if |table| > 0 {
      var e := table[0];
      var cs1 := PC.Config(cs, e.chId, e.shuntVal, e.name);
      ConfigBitmap(cs1, table[1..], j);
      PC.ConfigBitmap(cs, e.chId, e.shuntVal, e.name, j);
      if exists k :: 0 <= k < |table| && table[k].chId == j {
        var k :| 0 <= k < |table| && table[k].chId == j;
        if k > 0 {
          assert table[1..][k - 1].chId == j;
        }
      }
      if exists k :: 0 <= k < |table[1..]| && table[1..][k].chId == j {
        var k :| 0 <= k < |table[1..]| && table[1..][k].chId == j;
        assert table[k + 1].chId == j;
      }
    }
  }

  /** The last entry naming a channel decides its shunt value and name, and
      its counters and sums restart; a channel no entry names keeps its
      record. */
  lemma {:induction false} ConfigEntries(cs: PC.Channels, table: seq<ChEntry>, j: nat)
    requires PC.Valid(cs) && ProcessConfig(cs, table).Some? && j < |cs.info|
    ensures var r := ProcessConfig(cs, table).value;
            (forall k :: 0 <= k < |table| ==> table[k].chId != j) ==> r.info[j] == cs.info[j]
    ensures var r := ProcessConfig(cs, table).value;
            forall k :: 0 <= k < |table| && table[k].chId == j
                        && (forall l :: k < l < |table| ==> table[l].chId != j) ==>
              r.info[j] == PC.ChannelInfo(j, table[k].shuntVal, PC.StoredName(table[k].name), 0, 0, 0, 0)
    decreases |table|
  {
    if |table| > 0 {
      var e := table[0];
      var cs1 := PC.Config(cs, e.chId, e.shuntVal, e.name);
      var rest := table[1..];
      ConfigEntries(cs1, rest, j);
      assert forall k :: 1 <= k < |table| ==> table[k] == rest[k - 1];
      forall k | 0 <= k < |table| && table[k].chId == j && (forall l :: k < l < |table| ==> table[l].chId != j)
        ensures ProcessConfig(cs, table).value.info[j]
                == PC.ChannelInfo(j, table[k].shuntVal, PC.StoredName(table[k].name), 0, 0, 0, 0)
      {
        if k == 0 {
          assert forall l :: 0 <= l < |rest| ==> rest[l].chId != j;
        } else {
          assert rest[k - 1].chId == j;
          assert forall l :: k - 1 < l < |rest| ==> rest[l].chId != j;
        }
      }
    }
  }

  // ---------------------------------------------------------------------
  // Data indications

  /** Data cell j as the two 32-bit arguments of svc_PwrMon_channelUpdate
      (the format-0 voltage and current). */
  function Reading(cells: seq<(i16, i16)>, j: nat): (i32, i32)
    requires j < |cells|
  {
    (cells[j].0, cells[j].1)
  }

  lemma RowsGrow(n: nat, numCh: nat)
    requires n > 0
    ensures (n - 1) * numCh + numCh == n * numCh
  {
  }

  lemma CellBelow(n: nat, numCh: nat, k: nat)
    requires n > 0 && k < numCh
    ensures (n - 1) * numCh + k < n * numCh && (n - 1) * numCh + numCh == n * numCh
  {
  }

  /** Channel k's readings of sets 0 .. n-1: column k of the data area. */
  function Column(cells: seq<(i16, i16)>, numCh: nat, k: nat, n: nat): (r: seq<(i32, i32)>)
    requires k < numCh && n * numCh <= |cells|
    ensures |r| == n
  {
    if n == 0 then []
    else
      CellBelow(n, numCh, k);
      Column(cells, numCh, k, n - 1) + [Reading(cells, (n - 1) * numCh + k)]
  }

  predicate TargetsIn(cs: PC.Channels, targets: seq<nat>) {
    forall k :: 0 <= k < |targets| ==> targets[k] < |cs.info|
  }

  /** The inner loop over one row starting at cell base: cell base + k goes
      to channel targets[k], for k below ch. */
  function UpdateRow(cs: PC.Channels, cells: seq<(i16, i16)>, targets: seq<nat>,
                     base: nat, ch: nat): (r: PC.Channels)
    requires ch <= |targets| && TargetsIn(cs, targets) && base + ch <= |cells|
    ensures |r.info| == |cs.info| && r.bitmap == cs.bitmap
    decreases ch
  {
    if ch == 0 then cs
    else
      var x := Reading(cells, base + ch - 1);
      PC.Update(UpdateRow(cs, cells, targets, base, ch - 1), targets[ch - 1], x.0, x.1)
  }

  /** Both loops over the first n rows of numCh cells. */
  function UpdateSets(cs: PC.Channels, cells: seq<(i16, i16)>, numCh: nat, targets: seq<nat>,
                      n: nat): (r: PC.Channels)
    requires numCh <= |targets| && TargetsIn(cs, targets) && n * numCh <= |cells|
    ensures |r.info| == |cs.info| && r.bitmap == cs.bitmap
    decreases n
  {
    if n == 0 then cs
    else
      RowsGrow(n, numCh);
      var r := UpdateSets(cs, cells, numCh, targets, n - 1);
      UpdateRow(r, cells, targets, (n - 1) * numCh, numCh)
  }

  /** No target below ch is channel j. */
  predicate Untargeted(targets: seq<nat>, ch: nat, j: nat)
    requires ch <= |targets|
  {
    forall k :: 0 <= k < ch ==> targets[k] != j
  }

  /** The first ch targets are pairwise distinct. */
  predicate Distinct(targets: seq<nat>, ch: nat)
    requires ch <= |targets|
  {
    forall a, b :: 0 <= a < b < ch ==> targets[a] != targets[b]
  }

  /** One row updates each of the first ch targets once, with its cell
      (targets pairwise distinct)... */
  lemma {:induction false} RowHits(cs: PC.Channels, cells: seq<(i16, i16)>, targets: seq<nat>,
                                   base: nat, ch: nat, k: nat)
    requires ch <= |targets| && TargetsIn(cs, targets) && base + ch <= |cells|
    requires Distinct(targets, ch)
    requires k < ch
    ensures UpdateRow(cs, cells, targets, base, ch).info[targets[k]]
            == PC.UpdateInfo(cs.info[targets[k]], Reading(cells, base + k).0, Reading(cells, base + k).1)
    decreases ch
  {
    var t := targets[ch - 1];
    if k < ch - 1 {
      RowHits(cs, cells, targets, base, ch - 1, k);
      assert targets[k] != t;
    } else {
      RowMisses(cs, cells, targets, base, ch - 1, t);
    }
  }

  /** ... and leaves every other channel alone. */
  lemma {:induction false} RowMisses(cs: PC.Channels, cells: seq<(i16, i16)>, targets: seq<nat>,
                                     base: nat, ch: nat, j: nat)
    requires ch <= |targets| && TargetsIn(cs, targets) && base + ch <= |cells|
    requires j < |cs.info| && Untargeted(targets, ch, j)
    ensures UpdateRow(cs, cells, targets, base, ch).info[j] == cs.info[j]
    decreases ch
  {
    if ch > 0 {
      RowMisses(cs, cells, targets, base, ch - 1, j);
      assert targets[ch - 1] != j;
    }
  }

  /** The n rows feed each of the first numCh targets its column, in set
      order... */
  lemma {:induction false} SetsFeedColumn(cs: PC.Channels, cells: seq<(i16, i16)>, numCh: nat,
                                          targets: seq<nat>, n: nat, k: nat)
    requires numCh <= |targets| && TargetsIn(cs, targets) && n * numCh <= |cells|
    requires Distinct(targets, numCh)
    requires k < numCh
    ensures UpdateSets(cs, cells, numCh, targets, n).info[targets[k]]
            == PC.Feed(cs.info[targets[k]], Column(cells, numCh, k, n))
    decreases n
  {
    if n > 0 {
      SetsFeedColumn(cs, cells, numCh, targets, n - 1, k);
      RowsGrow(n, numCh);
      var q := UpdateSets(cs, cells, numCh, targets, n - 1);
      assert UpdateSets(cs, cells, numCh, targets, n) == UpdateRow(q, cells, targets, (n - 1) * numCh, numCh);
      ColumnStep(cells, numCh, k, n);
      RowFeedsColumn(cs.info[targets[k]], q, cells, numCh, targets, n, k);
    }
  }

  /** The n-th row extends target k's column by one reading. */
  lemma {:induction false} RowFeedsColumn(c: PC.ChannelInfo, q: PC.Channels, cells: seq<(i16, i16)>, numCh: nat,
                       targets: seq<nat>, n: nat, k: nat)
    requires numCh <= |targets| && TargetsIn(q, targets) && 0 < n && n * numCh <= |cells|
    requires Distinct(targets, numCh) && k < numCh
    requires q.info[targets[k]] == PC.Feed(c, Column(cells, numCh, k, n - 1))
    ensures (n - 1) * numCh + numCh <= |cells|
    ensures UpdateRow(q, cells, targets, (n - 1) * numCh, numCh).info[targets[k]]
            == PC.Feed(c, Column(cells, numCh, k, n))
  {
    CellBelow(n, numCh, k);
    var base := (n - 1) * numCh;
    var col := Column(cells, numCh, k, n - 1);
    var x := Reading(cells, base + k);
    assert Column(cells, numCh, k, n) == col + [x] by {
      ColumnStep(cells, numCh, k, n);
    }
    assert UpdateRow(q, cells, targets, base, numCh).info[targets[k]] == PC.Feed(c, col + [x]) by {
      RowExtends(c, q, cells, numCh, targets, base, col, k);
    }
  }

  /** One row at `base` appends target k's cell to the readings it was fed. */
  lemma {:induction false} RowExtends(c: PC.ChannelInfo, q: PC.Channels, cells: seq<(i16, i16)>, numCh: nat,
                   targets: seq<nat>, base: nat, col: seq<(i32, i32)>, k: nat)
    requires numCh <= |targets| && TargetsIn(q, targets) && base + numCh <= |cells|
    requires Distinct(targets, numCh) && k < numCh
    requires q.info[targets[k]] == PC.Feed(c, col)
    ensures UpdateRow(q, cells, targets, base, numCh).info[targets[k]]
            == PC.Feed(c, col + [Reading(cells, base + k)])
  {
    RowHits(q, cells, targets, base, numCh, k);
    FeedSnoc(c, col, Reading(cells, base + k));
  }

  /** ... and leave every other channel alone. */
  lemma {:induction false} SetsMiss(cs: PC.Channels, cells: seq<(i16, i16)>, numCh: nat,
                                    targets: seq<nat>, n: nat, j: nat)
    requires numCh <= |targets| && TargetsIn(cs, targets) && n * numCh <= |cells|
    requires j < |cs.info| && Untargeted(targets, numCh, j)
    ensures UpdateSets(cs, cells, numCh, targets, n).info[j] == cs.info[j]
    decreases n
  {
    if n > 0 {
      RowsGrow(n, numCh);
      SetsMiss(cs, cells, numCh, targets, n - 1, j);
      RowMisses(UpdateSets(cs, cells, numCh, targets, n - 1), cells, targets, (n - 1) * numCh, numCh, j);
    }
  }

  lemma ColumnStep(cells: seq<(i16, i16)>, numCh: nat, k: nat, n: nat)
    requires 0 < n && k < numCh && n * numCh <= |cells|
    ensures (n - 1) * numCh + k < |cells|
    ensures Column(cells, numCh, k, n) == Column(cells, numCh, k, n - 1) + [Reading(cells, (n - 1) * numCh + k)]
  {
    CellBelow(n, numCh, k);
  }

  lemma FeedSnoc(c: PC.ChannelInfo, rs: seq<(i32, i32)>, x: (i32, i32))
    ensures PC.Feed(c, rs + [x]) == PC.UpdateInfo(PC.Feed(c, rs), x.0, x.1)
  {
    assert (rs + [x])[..|rs|] == rs;
  }

  /** The cell columns as svc_PwrMonEh_handlerSampling writes them: column
      ch goes to channel number ch. */
  function Ranks(numCh: nat): (r: seq<nat>)
    ensures |r| == numCh && forall k :: 0 <= k < numCh ==> r[k] == k
  {
    seq(numCh, k => k)
  }

  /** DATA_IND as written: every (set, ch) cell updates channel ch when the
      format is FMT0_IV; the status LED then shows bit 6 of the sent-packet
      count. */
  function DataIndAsWritten(pl: Platform, cs: PC.Channels, h: PM.DataIndHdr, cells: seq<(i16, i16)>): (r: PC.Channels)
    requires PC.Valid(cs) && |cs.info| == pl.smp.numChannels
    requires h.numSmplSet * h.numCh <= |cells| && h.numCh <= |cs.info|
    ensures |r.info| == |cs.info| && r.bitmap == cs.bitmap
  {
    if h.smplFmt == pl.fmt0Iv then UpdateSets(cs, cells, h.numCh, Ranks(h.numCh), h.numSmplSet) else cs
  }

  /** DATA_IND as written feeds column k to channel k, whatever the packet's
      channel bitmap says. */
  lemma DataIndAsWrittenFeedsRanks(pl: Platform, cs: PC.Channels, h: PM.DataIndHdr, cells: seq<(i16, i16)>, k: nat)
    requires PC.Valid(cs) && |cs.info| == pl.smp.numChannels
    requires h.numSmplSet * h.numCh <= |cells| && h.numCh <= |cs.info|
    requires h.smplFmt == pl.fmt0Iv && k < h.numCh
    ensures DataIndAsWritten(pl, cs, h, cells).info[k] == PC.Feed(cs.info[k], Column(cells, h.numCh, k, h.numSmplSet))
  {
    SetsFeedColumn(cs, cells, h.numCh, Ranks(h.numCh), h.numSmplSet, k);
  }

  /** The channel that column k of a packet belongs to: the sampler fills
      column k with the k-th set bit of the packet's channel bitmap. */
  function Owners(cs: PC.Channels, h: PM.DataIndHdr): (r: seq<nat>)
    ensures |r| == PopCount(h.chBitmap, |cs.info|)
  {
    Members(h.chBitmap, |cs.info|)
  }

  /** The set bits of a bitmap name channels of the table, each once. */
  lemma MembersTargetable(cs: PC.Channels, x: nat)
    ensures TargetsIn(cs, Members(x, |cs.info|)) && Distinct(Members(x, |cs.info|), |Members(x, |cs.info|)|)
  {
    MembersAre(x, |cs.info|);
  }

  /** DATA_IND corrected: column k updates the channel that owns it. */
  function DataIndUpdate(pl: Platform, cs: PC.Channels, h: PM.DataIndHdr, cells: seq<(i16, i16)>): (r: PC.Channels)
    requires PC.Valid(cs) && |cs.info| == pl.smp.numChannels
    requires h.numSmplSet * h.numCh <= |cells| && h.numCh <= PopCount(h.chBitmap, |cs.info|)
    ensures PC.Valid(r) && |r.info| == |cs.info| && r.bitmap == cs.bitmap
  {
    MembersTargetable(cs, h.chBitmap);
    if h.smplFmt == pl.fmt0Iv then UpdateSets(cs, cells, h.numCh, Owners(cs, h), h.numSmplSet) else cs
  }

  /** Corrected DATA_IND: each channel owning one of the packet's numCh
      columns receives exactly that column's readings, in set order; every
      other channel, and every channel for another format, is unchanged. */
  lemma DataIndFeedsOwners(pl: Platform, cs: PC.Channels, h: PM.DataIndHdr, cells: seq<(i16, i16)>, j: nat)
    requires PC.Valid(cs) && |cs.info| == pl.smp.numChannels
    requires h.numSmplSet * h.numCh <= |cells| && h.numCh <= PopCount(h.chBitmap, |cs.info|)
    requires j < |cs.info|
    ensures var r := DataIndUpdate(pl, cs, h, cells);
            var rank := PopCount(h.chBitmap, j);
            if h.smplFmt == pl.fmt0Iv && Bit(h.chBitmap, j) && rank < h.numCh
            then r.info[j] == PC.Feed(cs.info[j], Column(cells, h.numCh, rank, h.numSmplSet))
            else r.info[j] == cs.info[j]
  {
    var ids := Owners(cs, h);
    MembersAre(h.chBitmap, |cs.info|);
    if h.smplFmt == pl.fmt0Iv {
      var rank := PopCount(h.chBitmap, j);
      if Bit(h.chBitmap, j) && rank < h.numCh {
        MemberAtRank(h.chBitmap, |cs.info|, j);
        SetsFeedColumn(cs, cells, h.numCh, ids, h.numSmplSet, rank);
      } else {
        assert Untargeted(ids, h.numCh, j);
        SetsMiss(cs, cells, h.numCh, ids, h.numSmplSet, j);
      }
    }
  }

  /** As written and corrected agree exactly when the packet's channels
      are channels 0 to numCh - 1: then column k belongs to channel k. */
  lemma DataIndAsWrittenAgreesOnLowChannels(pl: Platform, cs: PC.Channels, h: PM.DataIndHdr,
                                            cells: seq<(i16, i16)>)
    requires PC.Valid(cs) && |cs.info| == pl.smp.numChannels
    requires h.numSmplSet * h.numCh <= |cells| && h.numCh <= |cs.info|
    requires forall i :: 0 <= i < h.numCh ==> Bit(h.chBitmap, i)
    ensures h.numCh <= PopCount(h.chBitmap, |cs.info|)
    ensures DataIndAsWritten(pl, cs, h, cells) == DataIndUpdate(pl, cs, h, cells)
  {
    PopCountLowBits(h.chBitmap, h.numCh, h.numCh);
    PopCountMonotone(h.chBitmap, h.numCh, |cs.info|);
    var a := DataIndAsWritten(pl, cs, h, cells);
    var b := DataIndUpdate(pl, cs, h, cells);
    forall j | 0 <= j < |cs.info|
      ensures a.info[j] == b.info[j]
    {
      DataIndFeedsOwners(pl, cs, h, cells, j);
      if h.smplFmt == pl.fmt0Iv {
        if j < h.numCh {
          PopCountLowBits(h.chBitmap, h.numCh, j);
          DataIndAsWrittenFeedsRanks(pl, cs, h, cells, j);
        } else {
          PopCountMonotone(h.chBitmap, h.numCh, j);
          assert Untargeted(Ranks(h.numCh), h.numCh, j);
          SetsMiss(cs, cells, h.numCh, Ranks(h.numCh), h.numSmplSet, j);
        }
      }
    }
    assert a.info == b.info;
  }

  /** Channels 1 and 3 configured (bitmap 0b1010), one set whose second
      cell carries channel 3's reading (5, 9): as written the reading lands
      on channel 1 and channel 3 never moves; the corrected handler gives it
      to channel 3. */
  lemma DataIndAsWrittenMisroutes(pl: Platform, cells: seq<(i16, i16)>)
    requires pl.smp.numChannels == 4 && pl.fmt0Iv == 0
    requires |cells| == PM.DATA_IND_CELLS && cells[1] == (5, 9)
    ensures var cs := PC.Channels(seq(4, _ => PC.ZERO), 10);
            var h := PM.DataIndHdr(2, 1, 0, 0, 10, 0);
            PC.Valid(cs) && PopCount(10, 4) == 2
            && DataIndAsWritten(pl, cs, h, cells).info[3] == PC.ZERO
            && DataIndAsWritten(pl, cs, h, cells).info[1].sumV == 5
            && DataIndUpdate(pl, cs, h, cells).info[3].sumV == 5
  {
    var cs := PC.Channels(seq(4, _ => PC.ZERO), 10);
    var h := PM.DataIndHdr(2, 1, 0, 0, 10, 0);
    BitsOfTen();
    SetsFeedColumn(cs, cells, 2, Ranks(2), 1, 1);
    SetsMiss(cs, cells, 2, Ranks(2), 1, 3);
    DataIndFeedsOwners(pl, cs, h, cells, 3);
    assert Column(cells, 2, 1, 1) == [(5, 9)];
  }

  lemma BitsOfTen()
    ensures Pow2(4) == 16 && Bit(10, 1) && Bit(10, 3) && !Bit(10, 0) && !Bit(10, 2)
    ensures PopCount(10, 3) == 1 && PopCount(10, 4) == 2
  {
    assert Pow2(1) == 2 && Pow2(2) == 4 && Pow2(3) == 8 && Pow2(4) == 16;
  }

  /** The status LED while sampling: white exactly while bit 6 of the
      sent-packet count is set, off otherwise. */
  function LedColor(pktSndNum: u32): (r: nat)
    ensures r == 0 || r == WHITE
  {
    WHITE * ((pktSndNum / 64) % 2)
  }

  /** The LED changes colour exactly when the sent-packet count (wrapping at
      2^32) reaches a multiple of 64: it blinks with a period of 128
      packets. */
  lemma LedBlinks(n: u32)
    ensures LedColor((n + 1) % PS.M32) != LedColor(n) <==> (n + 1) % 64 == 0
  {
    if n + 1 < PS.M32 {
      PS.ModId(n + 1, PS.M32);
      PS.DivSucc(n, 64);
      PS.DivSucc(n / 64, 2);
    } else {
      assert n / 64 == 0x3FF_FFFF;
    }
  }

  // ---------------------------------------------------------------------
  // The handler

  lemma BitmapFits(cs: PC.Channels)
    requires PC.Valid(cs)
    ensures cs.bitmap < PS.M16
  {
    Pow2Monotone(|cs.info|, PC.BITMAP_BITS);
    PS.Pow2Bits();
  }

  /** svc_PwrMonEh_buildAndSendChAvgCnf: the count of configured channels
      and one entry each, in ascending id. */
  function ChAvgCnf(pl: Platform, m: Msg, cs: PC.Channels): Out
    requires PC.Valid(cs)
  {
    PC.MembersInTable(cs, |cs.info|);
    Cnf(m.eh, PM.Id(pl.self, PM.ChAvgCnf),
        ChAvgBody(|PC.Configured(cs)|, PC.Entries(cs, PC.Configured(cs))))
  }

  /** svc_PwrMonEh_handler: STATS_REQ and CH_AVG_REQ in every state, the
      rest by state. svc_PwrMon_samplerStatsReset, whose body the model does
      not have, is taken to zero the four counters. */
  function Handle(pl: Platform, e: Eh, m: Msg): (r: Outcome)
    requires Valid(pl, e) && Fits(pl, m)
    ensures r.Done? ==> Valid(pl, r.eh)
  {
    match m.req
    case StatsReq(reset) =>
      var smp := if reset then e.smp.(stats := PS.ZERO_STATS) else e.smp;
      Done(e.(smp := smp), [Cnf(m.eh, PM.Id(pl.self, PM.StatsCnf), StatsBody(smp.stats))])
    case ChAvgReq(reset) =>
      var cs := if reset then PC.ResetConfigured(e.chans) else e.chans;
      Done(e.(chans := cs), [ChAvgCnf(pl, m, cs)])
    case _ =>
      match e.state
      case Init => HandleInit(pl, e, m)
      case Configured => HandleConfigured(pl, e, m)
      case Calibration => Done(e, [])
      case Sampling => HandleSampling(pl, e, m)
  }

  /** svc_PwrMonEh_handlerInit. */
  function HandleInit(pl: Platform, e: Eh, m: Msg): (r: Outcome)
    requires Valid(pl, e)
    ensures r.Done? ==> Valid(pl, r.eh)
  {
    match m.req
    case ConfigReq(fmt, table) =>
      (match ProcessConfig(e.chans, table)
       case None => Fatal
       case Some(cs) =>
         Done(e.(chans := cs, smplFmt := fmt, state := Configured), [StatusCnf(pl, m, PM.ConfigCnf, PM.STATUS_SUCCESS)]))
    case StartReq => Done(e, [StatusCnf(pl, m, PM.StartCnf, PM.STATUS_FAILURE)])
    case StopReq => Done(e, [StatusCnf(pl, m, PM.StopCnf, PM.STATUS_FAILURE)])
    case _ => Done(e, [])
  }

  /** svc_PwrMonEh_handlerConfigured. The saved sample format is what the
      sampler receives as its sample size. */
  function HandleConfigured(pl: Platform, e: Eh, m: Msg): (r: Outcome)
    requires Valid(pl, e)
    ensures r.Done? ==> Valid(pl, r.eh)
  {
    match m.req
    case StartReq =>
      BitmapFits(e.chans);
      var st := PS.Start(pl.smp, e.smp, e.chans.bitmap, e.smplFmt);
      Done(e.(smp := st.0, state := Sampling), Samplers(st.1) + [StatusCnf(pl, m, PM.StartCnf, PM.STATUS_SUCCESS)])
    case ConfigReq(fmt, table) =>
      (match ProcessConfig(e.chans, table)
       case None => Fatal
       case Some(cs) =>
         Done(e.(chans := cs, smplFmt := fmt, state := Configured), [StatusCnf(pl, m, PM.ConfigCnf, PM.STATUS_SUCCESS)]))
    case StopReq => Done(e, [StatusCnf(pl, m, PM.StopCnf, PM.STATUS_SUCCESS)])
    case _ => Done(e, [])
  }

  /** svc_PwrMonEh_handlerSampling, with the corrected DATA_IND. */
  function HandleSampling(pl: Platform, e: Eh, m: Msg): (r: Outcome)
    requires Valid(pl, e) && Fits(pl, m)
    ensures r.Done? ==> Valid(pl, r.eh)
  {
    match m.req
    case DataInd(h, cells) =>
      Done(e.(chans := DataIndUpdate(pl, e.chans, h, cells)), [Led(LedColor(e.smp.stats.pktSndNum))])
    case ConfigReq(fmt, table) =>
      var stop := PS.Stop(e.smp);
      (match ProcessConfig(e.chans, table)
       case None => Fatal
       case Some(cs) =>
         BitmapFits(cs);
         var st := PS.Start(pl.smp, stop.0, cs.bitmap, fmt);
         Done(e.(chans := cs, smplFmt := fmt, smp := st.0),
              Samplers(stop.1) + Samplers(st.1) + [StatusCnf(pl, m, PM.ConfigCnf, PM.STATUS_SUCCESS)]))
    case StartReq =>
      var stop := PS.Stop(e.smp);
      BitmapFits(e.chans);
      var st := PS.Start(pl.smp, stop.0, e.chans.bitmap, e.smplFmt);
      Done(e.(smp := st.0), Samplers(stop.1) + [StatusCnf(pl, m, PM.StartCnf, PM.STATUS_SUCCESS)] + Samplers(st.1))
    case StopReq =>
      var stop := PS.Stop(e.smp);
      Done(e.(smp := stop.0, state := Configured), Samplers(stop.1) + [StatusCnf(pl, m, PM.StopCnf, PM.STATUS_SUCCESS)])
    case _ => Done(e, [])
  }

  // ---------------------------------------------------------------------
  // Properties of the handler, against reference tables

  /** The state table: CONFIG leaves INIT, START enters SAMPLING from
      CONFIGURED, STOP leaves SAMPLING, CALIBRATION is never left. */
  function NextState(s: State, r: Req): State {
    match s
    case Init => if r.ConfigReq? then Configured else Init
    case Configured => if r.StartReq? then Sampling else Configured
    case Calibration => Calibration
    case Sampling => if r.StopReq? then Configured else Sampling
  }

  /** The confirm a request gets in a state, if any: its name and, for the
      status confirms, whether it reports failure. */
  function Expected(s: State, r: Req): Option<(PM.MsgName, bool)> {
    match r
    case StatsReq(_) => Some((PM.StatsCnf, false))
    case ChAvgReq(_) => Some((PM.ChAvgCnf, false))
    case ConfigReq(_, _) => if s == Calibration then None else Some((PM.ConfigCnf, false))
    case StartReq => if s == Calibration then None else Some((PM.StartCnf, s == Init))
    case StopReq => if s == Calibration then None else Some((PM.StopCnf, s == Init))
    case _ => None
  }

  /** The confirms among a list of outputs. */
  function Cnfs(outs: seq<Out>): (r: seq<Out>)
    ensures forall k :: 0 <= k < |r| ==> r[k].Cnf? && r[k] in outs
  {
    if outs == [] then []
    else (if outs[0].Cnf? then [outs[0]] else []) + Cnfs(outs[1..])
  }

  lemma {:induction false} CnfsAppend(a: seq<Out>, b: seq<Out>)
    ensures Cnfs(a + b) == Cnfs(a) + Cnfs(b)
    decreases |a|
  {
    if a == [] {
      assert a + b == b;
    } else {
      assert (a + b)[0] == a[0];
      assert (a + b)[1..] == a[1..] + b;
      CnfsAppend(a[1..], b);
      var x := if a[0].Cnf? then [a[0]] else [];
      assert x + (Cnfs(a[1..]) + Cnfs(b)) == (x + Cnfs(a[1..])) + Cnfs(b);
    }
  }

  lemma {:induction false} NoCnfsFromSampler(es: seq<PS.Effect>)
    ensures Cnfs(Samplers(es)) == []
    decreases |es|
  {
    if es != [] {
      assert Samplers(es)[1..] == Samplers(es[1..]);
      NoCnfsFromSampler(es[1..]);
    }
  }

  /** What the tables say about one handled message: the next state, and
      the one confirm the request gets, addressed to its sender, with status
      FAILURE exactly for START and STOP in INIT (none when the table gives
      none). */
  predicate Follows(pl: Platform, e: Eh, m: Msg, r: Outcome) {
    r.Done? ==>
      r.eh.state == NextState(e.state, m.req)
      && match Expected(e.state, m.req)
         case None => Cnfs(r.outs) == []
         case Some(x) =>
           |Cnfs(r.outs)| == 1 && Cnfs(r.outs)[0].dest == m.eh
           && Cnfs(r.outs)[0].id == PM.Id(pl.self, x.0)
           && (Cnfs(r.outs)[0].body.Status? ==>
                 Cnfs(r.outs)[0].body.status == (if x.1 then PM.STATUS_FAILURE else PM.STATUS_SUCCESS))
  }

  /** A configuration naming a channel beyond the table is the only fatal
      case, outside CALIBRATION. */
  lemma HandleFatal(pl: Platform, e: Eh, m: Msg)
    requires Valid(pl, e) && Fits(pl, m)
    ensures var r := Handle(pl, e, m);
            r.Fatal? <==> m.req.ConfigReq? && e.state != Calibration
                          && exists k :: 0 <= k < |m.req.table| && m.req.table[k].chId >= pl.smp.numChannels
  {
    if m.req.ConfigReq? {
      var ok := ProcessConfig(e.chans, m.req.table).Some?;
      assert e.state != Calibration ==> (Handle(pl, e, m).Fatal? <==> !ok);
    }
  }

  /** Handling moves along the state table and answers as the confirm table
      says. */
  lemma HandleFollowsTables(pl: Platform, e: Eh, m: Msg)
    requires Valid(pl, e) && Fits(pl, m)
    ensures Follows(pl, e, m, Handle(pl, e, m))
  {
    match m.req
    case ConfigReq(_, _) => ConfigFollows(pl, e, m);
    case StartReq => StartFollows(pl, e, m);
    case StopReq => StopFollows(pl, e, m);
    case DataInd(_, _) => OneOut(Led(LedColor(e.smp.stats.pktSndNum)));
    case StatsReq(_) => OneOut(Handle(pl, e, m).outs[0]);
    case ChAvgReq(_) => OneOut(Handle(pl, e, m).outs[0]);
    case Unhandled(_) =>
  }

  lemma OneOut(o: Out)
    ensures Cnfs([o]) == if o.Cnf? then [o] else []
  {
    assert [o][1..] == [];
  }

  /** Sampler effects placed before or after other outputs add no confirm. */
  lemma CnfsAroundSamplers(a: seq<Out>, es: seq<PS.Effect>, b: seq<Out>)
    ensures Cnfs(a + Samplers(es) + b) == Cnfs(a) + Cnfs(b)
  {
    CnfsAppend(a + Samplers(es), b);
    CnfsAppend(a, Samplers(es));
    NoCnfsFromSampler(es);
  }

  lemma ConfigFollows(pl: Platform, e: Eh, m: Msg)
    requires Valid(pl, e) && m.req.ConfigReq?
    ensures Follows(pl, e, m, Handle(pl, e, m))
  {
    var r := Handle(pl, e, m);
    var c := StatusCnf(pl, m, PM.ConfigCnf, PM.STATUS_SUCCESS);
    var cfg := ProcessConfig(e.chans, m.req.table);
    if e.state == Calibration {
      assert r == Done(e, []);
    } else if cfg.Some? {
      if e.state == Sampling {
        ConfigCnfsSampling(pl, e, m);
      } else {
        assert r.outs == [c];
        OneOut(c);
      }
    }
  }

  lemma ConfigCnfsSampling(pl: Platform, e: Eh, m: Msg)
    requires Valid(pl, e) && m.req.ConfigReq? && e.state == Sampling
    requires ProcessConfig(e.chans, m.req.table).Some?
    ensures Cnfs(Handle(pl, e, m).outs) == [StatusCnf(pl, m, PM.ConfigCnf, PM.STATUS_SUCCESS)]
  {
    var c := StatusCnf(pl, m, PM.ConfigCnf, PM.STATUS_SUCCESS);
    OneOut(c);
    var cs := ProcessConfig(e.chans, m.req.table).value;
    BitmapFits(cs);
    var st := PS.Start(pl.smp, e.smp, cs.bitmap, m.req.smplFmt);
    assert Handle(pl, e, m).outs == Samplers([PS.TimerStop]) + Samplers(st.1) + [c];
    CnfsAroundSamplers(Samplers([PS.TimerStop]), st.1, [c]);
    NoCnfsFromSampler([PS.TimerStop]);
  }

  lemma StartFollows(pl: Platform, e: Eh, m: Msg)
    requires Valid(pl, e) && m.req.StartReq?
    ensures Follows(pl, e, m, Handle(pl, e, m))
  {
    var r := Handle(pl, e, m);
    var x := Expected(e.state, m.req);
    match e.state
    case Init =>
      var c := StatusCnf(pl, m, PM.StartCnf, PM.STATUS_FAILURE);
      assert r == Done(e, [c]);
      OneOut(c);
    case Configured =>
      StartCnfs(pl, e, m);
      assert r.eh.state == Sampling;
    case Calibration =>
      assert r == Done(e, []);
    case Sampling =>
      StartCnfs(pl, e, m);
      assert r.eh.state == Sampling;
  }

  lemma StartCnfs(pl: Platform, e: Eh, m: Msg)
    requires Valid(pl, e) && m.req.StartReq? && (e.state == Configured || e.state == Sampling)
    ensures Cnfs(Handle(pl, e, m).outs) == [StatusCnf(pl, m, PM.StartCnf, PM.STATUS_SUCCESS)]
  {
    var c := StatusCnf(pl, m, PM.StartCnf, PM.STATUS_SUCCESS);
    BitmapFits(e.chans);
    var st := PS.Start(pl.smp, e.smp, e.chans.bitmap, e.smplFmt);
    if e.state == Configured {
      assert Handle(pl, e, m).outs == Samplers(st.1) + [c];
      CnfsBeforeSamplers([], st.1, c);
    } else {
      assert Handle(pl, e, m).outs == Samplers([PS.TimerStop]) + [c] + Samplers(st.1);
      NoCnfsFromSampler([PS.TimerStop]);
      CnfsBeforeSamplers(Samplers([PS.TimerStop]), st.1, c);
    }
  }

  /** A confirm between sampler effects is the only confirm. */
  lemma CnfsBeforeSamplers(es0: seq<Out>, es: seq<PS.Effect>, c: Out)
    requires c.Cnf? && Cnfs(es0) == []
    ensures Cnfs(es0 + [c] + Samplers(es)) == [c] && Cnfs(Samplers(es) + [c]) == [c]
  {
    OneOut(c);
    CnfsAroundSamplers(es0 + [c], es, []);
    CnfsAroundSamplers([], es, [c]);
    CnfsAppend(es0, [c]);
    assert es0 + [c] + Samplers(es) + [] == es0 + [c] + Samplers(es);
    assert [] + Samplers(es) + [c] == Samplers(es) + [c];
  }

  lemma StopFollows(pl: Platform, e: Eh, m: Msg)
    requires Valid(pl, e) && m.req.StopReq?
    ensures Follows(pl, e, m, Handle(pl, e, m))
  {
    var r := Handle(pl, e, m);
    match e.state
    case Init =>
      var c := StatusCnf(pl, m, PM.StopCnf, PM.STATUS_FAILURE);
      assert r == Done(e, [c]);
      OneOut(c);
    case Configured =>
      var c := StatusCnf(pl, m, PM.StopCnf, PM.STATUS_SUCCESS);
      assert r == Done(e, [c]);
      OneOut(c);
    case Calibration =>
      assert r == Done(e, []);
    case Sampling =>
      StopCnfsSampling(pl, e, m);
      assert r.eh.state == Configured;
  }

  lemma StopCnfsSampling(pl: Platform, e: Eh, m: Msg)
    requires Valid(pl, e) && m.req.StopReq? && e.state == Sampling
    ensures Cnfs(HandleSampling(pl, e, m).outs) == [StatusCnf(pl, m, PM.StopCnf, PM.STATUS_SUCCESS)]
  {
    var c := StatusCnf(pl, m, PM.StopCnf, PM.STATUS_SUCCESS);
    OneOut(c);
    assert HandleSampling(pl, e, m).outs == Samplers([PS.TimerStop]) + [c];
    CnfsAroundSamplers([], [PS.TimerStop], [c]);
    assert [] + Samplers([PS.TimerStop]) + [c] == Samplers([PS.TimerStop]) + [c];
  }

  /** Whether the sampler's timer runs after a list of outputs, starting
      from `running`: the last timer effect decides. */
  function TimerAfter(outs: seq<Out>, running: bool): bool
    decreases |outs|
  {
    if outs == [] then running
    else
      var last := outs[|outs| - 1];
      if last == Sampler(PS.TimerStop) then false
      else if last.Sampler? && last.e.TimerStart? then true
      else TimerAfter(outs[..|outs| - 1], running)
  }

  /** The sampler's timer runs exactly in SAMPLING: if that holds before a
      message, it holds after it. */
  lemma TimerRunsExactlyWhenSampling(pl: Platform, e: Eh, m: Msg, running: bool)
    requires Valid(pl, e) && Fits(pl, m) && running == (e.state == Sampling)
    ensures var r := Handle(pl, e, m);
            r.Done? ==> TimerAfter(r.outs, running) == (r.eh.state == Sampling)
  {
    if e.state == Sampling {
      TimerInSampling(pl, e, m);
    } else {
      TimerOutsideSampling(pl, e, m);
    }
  }

  lemma TimerOutsideSampling(pl: Platform, e: Eh, m: Msg)
    requires Valid(pl, e) && Fits(pl, m) && e.state != Sampling
    ensures var r := Handle(pl, e, m);
            r.Done? ==> TimerAfter(r.outs, false) == (r.eh.state == Sampling)
  {
    var r := Handle(pl, e, m);
    if e.state == Configured && m.req.StartReq? {
      BitmapFits(e.chans);
      var st := PS.Start(pl.smp, e.smp, e.chans.bitmap, e.smplFmt);
      var a := Samplers(st.1);
      var c := StatusCnf(pl, m, PM.StartCnf, PM.STATUS_SUCCESS);
      assert r.outs == a + [c];
      TimerSkips(a, c, false);
      assert a[|a| - 1] == Sampler(PS.TimerStart(PS.TICK_US));
    } else if r.Done? {
      assert r.eh.state != Sampling;
      assert |r.outs| <= 1 && (r.outs != [] ==> r.outs[0].Cnf?);
      assert r.outs == [] || r.outs[..0] == [];
    }
  }

  lemma TimerInSampling(pl: Platform, e: Eh, m: Msg)
    requires Valid(pl, e) && Fits(pl, m) && e.state == Sampling
    ensures var r := Handle(pl, e, m);
            r.Done? ==> TimerAfter(r.outs, true) == (r.eh.state == Sampling)
  {
    match m.req
    case ConfigReq(fmt, table) =>
      if ProcessConfig(e.chans, table).Some? {
        TimerConfigSampling(pl, e, m);
      }
    case StopReq => TimerStopSampling(pl, e, m);
    case StartReq =>
      var r := HandleSampling(pl, e, m);
      assert r.eh.state == Sampling;
      var a := r.outs;
      assert a[|a| - 1].Sampler? && a[|a| - 1].e.TimerStart?;
    case DataInd(_, _) =>
      assert HandleSampling(pl, e, m).eh.state == Sampling;
      assert HandleSampling(pl, e, m).outs[..0] == [];
    case StatsReq(_) =>
    case ChAvgReq(_) =>
    case Unhandled(_) =>
      assert HandleSampling(pl, e, m) == Done(e, []);
  }

  lemma TimerConfigSampling(pl: Platform, e: Eh, m: Msg)
    requires Valid(pl, e) && Fits(pl, m) && e.state == Sampling && m.req.ConfigReq?
    requires ProcessConfig(e.chans, m.req.table).Some?
    ensures var r := HandleSampling(pl, e, m);
            r.Done? && TimerAfter(r.outs, true) && r.eh.state == Sampling
  {
    var r := HandleSampling(pl, e, m);
    var cs := ProcessConfig(e.chans, m.req.table).value;
    BitmapFits(cs);
    var st := PS.Start(pl.smp, e.smp, cs.bitmap, m.req.smplFmt);
    var a := Samplers([PS.TimerStop]) + Samplers(st.1);
    var c := StatusCnf(pl, m, PM.ConfigCnf, PM.STATUS_SUCCESS);
    assert r.outs == a + [c];
    TimerSkips(a, c, true);
    assert a[|a| - 1] == Sampler(PS.TimerStart(PS.TICK_US));
  }

  lemma TimerStopSampling(pl: Platform, e: Eh, m: Msg)
    requires Valid(pl, e) && Fits(pl, m) && e.state == Sampling && m.req.StopReq?
    ensures var r := HandleSampling(pl, e, m);
            r.Done? && !TimerAfter(r.outs, true) && r.eh.state == Configured
  {
    var a := Samplers([PS.TimerStop]);
    var c := StatusCnf(pl, m, PM.StopCnf, PM.STATUS_SUCCESS);
    assert HandleSampling(pl, e, m).outs == a + [c];
    assert a[0] == Sampler(PS.TimerStop);
    TimerSkips(a, c, true);
  }

  /** An output that is not the sampler's leaves the timer as it was. */
  lemma TimerSkips(a: seq<Out>, x: Out, running: bool)
    requires !x.Sampler?
    ensures TimerAfter(a + [x], running) == TimerAfter(a, running)
  {
    assert (a + [x])[..|a|] == a;
  }

  /** The answer to STATS_REQ carries the sampler's counters, zeroed first
      when asked; nothing else of the handler changes. */
  lemma StatsReqReports(pl: Platform, e: Eh, m: Msg)
    requires Valid(pl, e) && m.req.StatsReq?
    ensures var r := Handle(pl, e, m);
            r.Done? && r.eh.state == e.state && r.eh.chans == e.chans
            && r.outs == [Cnf(m.eh, PM.Id(pl.self, PM.StatsCnf),
                              StatsBody(if m.req.reset then PS.ZERO_STATS else e.smp.stats))]
            && r.eh.smp.stats == (if m.req.reset then PS.ZERO_STATS else e.smp.stats)
  {
  }

  /** The answer to CH_AVG_REQ lists exactly the configured channels, each
      once, in ascending id; after a reset every listed average is zero. */
  lemma ChAvgReqReports(pl: Platform, e: Eh, m: Msg)
    requires Valid(pl, e) && m.req.ChAvgReq?
    ensures var r := Handle(pl, e, m);
            r.Done? && r.eh.state == e.state && r.eh.smp == e.smp && |r.outs| == 1
            && r.outs[0].Cnf? && r.outs[0].dest == m.eh && r.outs[0].body.ChAvgBody?
            && var es := r.outs[0].body.entries;
               r.outs[0].body.chCnt == |es| == PopCount(e.chans.bitmap, |e.chans.info|)
               && (forall k :: 0 <= k < |es| ==> Bit(e.chans.bitmap, es[k].chId))
               && (forall k, l :: 0 <= k < l < |es| ==> es[k].chId < es[l].chId)
               && (forall j :: 0 <= j < |e.chans.info| && Bit(e.chans.bitmap, j) ==>
                     exists k :: 0 <= k < |es| && es[k].chId == j)
               && (m.req.reset ==> forall k :: 0 <= k < |es| ==> es[k].v == 0 && es[k].i == 0)
  {
    var cs := if m.req.reset then PC.ResetConfigured(e.chans) else e.chans;
    PC.EntriesAreConfigured(cs);
    PC.MembersInTable(cs, |cs.info|);
    var es := PC.Entries(cs, PC.Configured(cs));
    if m.req.reset {
      forall k | 0 <= k < |es| ensures es[k].v == 0 && es[k].i == 0 {
        var j := PC.Configured(cs)[k];
        assert es[k] == PC.Entry(cs, j);
        assert cs.info[j] == PC.ResetInfo(e.chans.info[j]);
      }
    }
  }

  /** CONFIG_REQ followed by START_REQ from CONFIGURED starts the sampler on
      the configured channels with the saved sample format. */
  lemma StartUsesConfiguration(pl: Platform, e: Eh, m1: Msg, m2: Msg)
    requires Valid(pl, e) && e.state == Configured && m1.req.ConfigReq? && m2.req.StartReq?
    requires Handle(pl, e, m1).Done?
    ensures var e1 := Handle(pl, e, m1).eh;
            var e2 := Handle(pl, e1, m2).eh;
            Handle(pl, e1, m2).Done? && e2.state == Sampling
            && e2.smp.chBitmap == e1.chans.bitmap && e2.smp.sampleSize == m1.req.smplFmt
            && e2.smp.firstSample && e2.smp.stats == PS.ZERO_STATS
  {
  }
}
