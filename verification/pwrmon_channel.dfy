/** The power monitor's per-channel accumulators (svc_PwrMon_channel.c):
    a table of channels, a bitmap of the configured ones, sample and
    average counters and the running sums of the signed 16-bit readings.
    The platform's channel count is the length of the table; the channel
    bitmap is 16 bits wide, so at most 16 channels. */
module PwrMonChannel {
  import opened Bytes
  import opened Bits
  import PM = PwrMonMsgs

  const BITMAP_BITS: nat := 16

  /** svc_PwrMon_ChannelInfo_t. The sums are 64-bit in the firmware; they
      are unbounded here (see README). */
  datatype ChannelInfo = ChannelInfo(chId: u8, shuntVal: u32, name: string,
                                     smplCnt: u32, avgCnt: u32, sumV: int, sumI: int)

  const ZERO: ChannelInfo := ChannelInfo(0, 0, "", 0, 0, 0, 0)

  datatype Channels = Channels(info: seq<ChannelInfo>, bitmap: nat)

  /** Only channels of the table are ever configured, and the table fits
      the 16-bit bitmap. */
  predicate Valid(cs: Channels) {
    |cs.info| <= BITMAP_BITS && cs.bitmap < Pow2(|cs.info|)
  }

  /** svc_PwrMon_channelInit: every channel zeroed, no channel configured. */
  function Init(num: nat): (cs: Channels)
    requires num <= BITMAP_BITS
    ensures Valid(cs) && |cs.info| == num
    ensures forall j :: !Bit(cs.bitmap, j)
    ensures forall k :: 0 <= k < num ==> cs.info[k] == ZERO
  {
    var cs := Channels(seq(num, _ => ZERO), 0);
    assert forall j :: !Bit(0, j) by {
      forall j ensures !Bit(0, j) {
        NoBitsAbove(0, 0, j);
      }
    }
    cs
  }

  /** strncpy(name, src, 40) followed by name[40] = 0: the characters of
      src before its first NUL, at most 40 of them. */
  function StoredName(src: string): (r: string)
    ensures |r| <= PM.CH_NAME_LEN && r <= src && '\0' !in r
    ensures |r| < PM.CH_NAME_LEN && |r| < |src| ==> src[|r|] == '\0'
  {
    TakeName(src, PM.CH_NAME_LEN)
  }

  function TakeName(src: string, n: nat): (r: string)
    ensures |r| <= n && r <= src && '\0' !in r
    ensures |r| < n && |r| < |src| ==> src[|r|] == '\0'
  {
    if n == 0 || |src| == 0 || src[0] == '\0' then ""
    else [src[0]] + TakeName(src[1..], n - 1)
  }

  /** svc_PwrMon_channelConfig. The firmware asserts chId < the channel
      count; the request handlers check it before calling. */
  function Config(cs: Channels, chId: u8, shuntVal: u32, name: string): (r: Channels)
    requires Valid(cs) && chId < |cs.info|
    ensures Valid(r) && |r.info| == |cs.info|
    ensures r.info[chId] == ChannelInfo(chId, shuntVal, StoredName(name), 0, 0, 0, 0)
    ensures forall k :: 0 <= k < |cs.info| && k != chId ==> r.info[k] == cs.info[k]
  {
    SetBitBounded(cs.bitmap, chId, |cs.info|);
    Channels(cs.info[chId := ChannelInfo(chId, shuntVal, StoredName(name), 0, 0, 0, 0)],
             SetBit(cs.bitmap, chId))
  }

  /** Configuring a channel adds exactly its bit to the bitmap. */
  lemma ConfigBitmap(cs: Channels, chId: u8, shuntVal: u32, name: string, j: nat)
    requires Valid(cs) && chId < |cs.info|
    ensures Bit(Config(cs, chId, shuntVal, name).bitmap, j) <==> Bit(cs.bitmap, j) || j == chId
  {
    BitOfSetBit(cs.bitmap, chId, j);
  }

  /** svc_PwrMon_channelUpdate on one channel: both counters advance
      (wrapping at 2^32) and each reading's low 16 bits, read as a signed
      value, join its sum. */
  function UpdateInfo(c: ChannelInfo, v: i32, i: i32): (r: ChannelInfo)
    ensures r.chId == c.chId && r.shuntVal == c.shuntVal && r.name == c.name
    ensures r.smplCnt == ToU32(c.smplCnt + 1) && r.avgCnt == ToU32(c.avgCnt + 1)
    ensures r.sumV - c.sumV == ToI16(v) && r.sumI - c.sumI == ToI16(i)
  {
    c.(smplCnt := ToU32(c.smplCnt + 1), avgCnt := ToU32(c.avgCnt + 1),
       sumV := c.sumV + ToI16(v), sumI := c.sumI + ToI16(i))
  }

  /** svc_PwrMon_channelUpdate. The firmware indexes its table without a
      check; the model requires the channel to exist. */
  function Update(cs: Channels, chId: nat, v: i32, i: i32): (r: Channels)
    requires chId < |cs.info|
    ensures r.bitmap == cs.bitmap && |r.info| == |cs.info|
    ensures r.info[chId] == UpdateInfo(cs.info[chId], v, i)
    ensures forall k :: 0 <= k < |cs.info| && k != chId ==> r.info[k] == cs.info[k]
  {
    cs.(info := cs.info[chId := UpdateInfo(cs.info[chId], v, i)])
  }

  /** svc_PwrMon_channelAvgReset on one channel: the average counter and
      both sums restart; the sample counter keeps counting. */
  function ResetInfo(c: ChannelInfo): (r: ChannelInfo)
    ensures r.avgCnt == 0 && r.sumV == 0 && r.sumI == 0
    ensures r.smplCnt == c.smplCnt && r.chId == c.chId && r.shuntVal == c.shuntVal && r.name == c.name
  {
    c.(avgCnt := 0, sumV := 0, sumI := 0)
  }

  function AvgReset(cs: Channels, chId: nat): (r: Channels)
    requires chId < |cs.info|
    ensures r.bitmap == cs.bitmap && |r.info| == |cs.info|
    ensures r.info[chId] == ResetInfo(cs.info[chId])
    ensures forall k :: 0 <= k < |cs.info| && k != chId ==> r.info[k] == cs.info[k]
  {
    cs.(info := cs.info[chId := ResetInfo(cs.info[chId])])
  }

  /** A set bit of a valid bitmap names a channel of the table. */
  lemma ConfiguredExists(cs: Channels, j: nat)
    requires Valid(cs) && Bit(cs.bitmap, j)
    ensures j < |cs.info|
  {
    if j >= |cs.info| {
      NoBitsAbove(cs.bitmap, |cs.info|, j);
    }
  }

  /** svc_PwrMon_channelAvgResetAll: shift the bitmap right until it is
      empty, resetting the channel under each set low bit. Exactly the
      configured channels are reset; nothing else changes. */
  method AvgResetAll(cs: Channels) returns (r: Channels)
    requires Valid(cs)
    ensures Valid(r) && r.bitmap == cs.bitmap && |r.info| == |cs.info|
    ensures forall k :: 0 <= k < |cs.info| ==>
              r.info[k] == (if Bit(cs.bitmap, k) then ResetInfo(cs.info[k]) else cs.info[k])
    ensures r == ResetConfigured(cs)
  {
    r := cs;
    var b := cs.bitmap;
    var chId: nat := 0;
    while b != 0
      invariant r.bitmap == cs.bitmap && |r.info| == |cs.info|
      invariant b == cs.bitmap / Pow2(chId)
      invariant forall k :: 0 <= k < |cs.info| ==>
                  r.info[k] == (if k < chId && Bit(cs.bitmap, k) then ResetInfo(cs.info[k]) else cs.info[k])
      decreases b
    {
      if b % 2 == 1 {
        assert Bit(cs.bitmap, chId);
        ConfiguredExists(cs, chId);
        r := AvgReset(r, chId);
      }
      ShiftStep(cs.bitmap, chId);
      b := b / 2;
      chId := chId + 1;
    }
    forall k | chId <= k
      ensures !Bit(cs.bitmap, k)
    {
      EmptyAbove(cs.bitmap, chId, k);
    }
    assert r.info == ResetConfigured(cs).info;
  }

  /** The table with the average of every configured channel restarted. */
  function ResetConfigured(cs: Channels): Channels
  {
    Channels(seq(|cs.info|, k requires 0 <= k < |cs.info| =>
                   if Bit(cs.bitmap, k) then ResetInfo(cs.info[k]) else cs.info[k]),
             cs.bitmap)
  }

  /** Once the bitmap shifted right by k is empty, no bit at k or above is set. */
  lemma EmptyAbove(x: nat, k: nat, j: nat)
    requires x / Pow2(k) == 0 && k <= j
    ensures !Bit(x, j)
  {
    DivModId(x, Pow2(k));
    NoBitsAbove(x, k, j);
  }

  // ---------------------------------------------------------------------
  // Averages

  /** The average a channel reports: each sum divided by the number of
      readings it holds, truncating toward zero, and 0 when it holds none
      (the value Cortex-M division by zero gives). */
  function Avg(sum: int, cnt: nat): (r: int)
    ensures cnt == 0 ==> r == 0
    ensures cnt > 0 && sum >= 0 ==> r * cnt <= sum < (r + 1) * cnt
    ensures cnt > 0 && sum < 0 ==> (r - 1) * cnt < sum <= r * cnt
  {
    if cnt == 0 then 0 else TruncDiv(sum, cnt)
  }

  /** svc_PwrMon_channelAvgGet as written: the 64-bit sums are narrowed to
      int32_t and divided by the uint32_t count, which converts the sum to
      unsigned first; the quotient is stored back into an int32_t. */
  function AvgGetAsWritten(c: ChannelInfo): (r: (i32, i32))
  {
    (ToI32(UDiv(ToU32(ToI32(c.sumV)), c.avgCnt)), ToI32(UDiv(ToU32(ToI32(c.sumI)), c.avgCnt)))
  }

  /** The Cortex-M UDIV instruction: division by zero gives 0. */
  function UDiv(a: u32, d: u32): (r: u32)
    ensures d > 0 ==> r * d <= a < (r + 1) * d
    ensures d == 0 ==> r == 0
  {
    if d == 0 then 0 else a / d
  }

  /** A channel holding the readings -4 and -6 reports a positive voltage
      average of 2147483643 instead of -5. */
  lemma AvgGetAsWrittenLosesSign()
    ensures var c := ChannelInfo(0, 0, "", 2, 2, -10, -10);
            AvgGetAsWritten(c).0 == 2147483643 && Avg(c.sumV, c.avgCnt) == -5
  {
  }

  /** The unsigned division is right exactly while both sums are
      non-negative and fit in int32_t. */
  lemma AvgGetAsWrittenAgreesWhenNonNegative(c: ChannelInfo)
    requires 0 <= c.sumV < 0x8000_0000 && 0 <= c.sumI < 0x8000_0000
    ensures AvgGetAsWritten(c) == (Avg(c.sumV, c.avgCnt), Avg(c.sumI, c.avgCnt))
  {
  }

  /** q is sum / cnt rounded toward zero. */
  predicate Truncates(sum: int, cnt: nat, q: int) {
    && (sum >= 0 ==> q * cnt <= sum < (q + 1) * cnt)
    && (sum < 0 ==> (q - 1) * cnt < sum <= q * cnt)
  }

  /** The corrected svc_PwrMon_channelAvgGet: signed division of each sum. */
  function AvgGet(c: ChannelInfo): (r: (int, int))
    ensures c.avgCnt == 0 ==> r == (0, 0)
    ensures c.avgCnt > 0 ==> Truncates(c.sumV, c.avgCnt, r.0) && Truncates(c.sumI, c.avgCnt, r.1)
  {
    (Avg(c.sumV, c.avgCnt), Avg(c.sumI, c.avgCnt))
  }

  /** The readings fed to a channel, one update each. */
  function Feed(c: ChannelInfo, rs: seq<(i32, i32)>): (r: ChannelInfo)
    decreases |rs|
  {
    if |rs| == 0 then c else UpdateInfo(Feed(c, rs[..|rs| - 1]), rs[|rs| - 1].0, rs[|rs| - 1].1)
  }

  function SumV(rs: seq<(i32, i32)>): int
  {
    if |rs| == 0 then 0 else SumV(rs[..|rs| - 1]) + ToI16(rs[|rs| - 1].0)
  }

  function SumI(rs: seq<(i32, i32)>): int
  {
    if |rs| == 0 then 0 else SumI(rs[..|rs| - 1]) + ToI16(rs[|rs| - 1].1)
  }

  /** After an average reset, fewer than 2^32 updates leave the counter at
      the number of readings and each sum at the sum of their signed low
      16 bits. */
  lemma {:induction false} FeedAfterReset(c: ChannelInfo, rs: seq<(i32, i32)>)
    requires |rs| < 0x1_0000_0000
    ensures Feed(ResetInfo(c), rs).avgCnt == |rs|
    ensures Feed(ResetInfo(c), rs).sumV == SumV(rs) && Feed(ResetInfo(c), rs).sumI == SumI(rs)
    decreases |rs|
  {
    if |rs| > 0 {
      FeedAfterReset(c, rs[..|rs| - 1]);
    }
  }

  /** Those sums stay within the 16-bit range times the count. */
  lemma {:induction false} SumsBounded(rs: seq<(i32, i32)>)
    ensures -0x8000 * |rs| <= SumV(rs) <= 0x7FFF * |rs|
    ensures -0x8000 * |rs| <= SumI(rs) <= 0x7FFF * |rs|
    decreases |rs|
  {
    if |rs| > 0 {
      SumsBounded(rs[..|rs| - 1]);
    }
  }

  /** The reported average of readings taken since a reset is itself a
      signed 16-bit value, so it fits the confirm's 16-bit fields. */
  lemma AverageIsI16(c: ChannelInfo, rs: seq<(i32, i32)>)
    requires |rs| < 0x1_0000_0000
    ensures var a := AvgGet(Feed(ResetInfo(c), rs));
            -0x8000 <= a.0 < 0x8000 && -0x8000 <= a.1 < 0x8000
  {
    FeedAfterReset(c, rs);
    SumsBounded(rs);
    if |rs| > 0 {
      MeanBounded(SumV(rs), |rs|);
      MeanBounded(SumI(rs), |rs|);
    }
  }

  lemma MeanBounded(s: int, n: nat)
    requires n > 0 && -0x8000 * n <= s <= 0x7FFF * n
    ensures -0x8000 <= Avg(s, n) < 0x8000
  {
    var q := Avg(s, n);
    if s >= 0 {
      if q >= 0x8000 {
        MulAtLeastBy(q, 0x8000, n);
      }
    } else {
      if q < -0x8000 {
        MulAtLeastBy(-q, 0x8001, n);
      }
    }
  }

  lemma MulAtLeastBy(a: int, b: int, n: nat)
    requires a >= b
    ensures a * n >= b * n
  {
    assert a * n - b * n == (a - b) * n;
  }

  // ---------------------------------------------------------------------
  // Whole-table queries

  /** The configured channels in ascending id, the order every bitmap loop
      of the file visits them in. */
  function Configured(cs: Channels): (r: seq<nat>)
  {
    Members(cs.bitmap, |cs.info|)
  }

  /** The confirm entry for one channel: its id and its averages stored in
      the 16-bit fields of a format-0 cell. */
  function Entry(cs: Channels, chId: nat): (e: PM.ChAvgEntry)
    requires chId < |cs.info| <= BITMAP_BITS
    ensures e.chId as nat == chId
    ensures var c := cs.info[chId];
            var v := Avg(c.sumV, c.avgCnt);
            -0x8000 <= v < 0x8000 ==> e.v == v
    ensures var c := cs.info[chId];
            var i := Avg(c.sumI, c.avgCnt);
            -0x8000 <= i < 0x8000 ==> e.i == i
  {
    var a := AvgGet(cs.info[chId]);
    PM.ChAvgEntry(chId as u8, ToI16(a.0), ToI16(a.1))
  }

  /** The confirm entry as the source builds it, from the unsigned division
      of svc_PwrMon_channelAvgGet. */
  function EntryAsWritten(cs: Channels, chId: nat): (e: PM.ChAvgEntry)
    requires chId < |cs.info| <= BITMAP_BITS
    ensures e.chId as nat == chId
  {
    var a := AvgGetAsWritten(cs.info[chId]);
    PM.ChAvgEntry(chId as u8, ToI16(a.0), ToI16(a.1))
  }

  /** A channel holding the voltage readings -2, -3 and -4 is reported in
      the ChAvg confirm as 21842 instead of -3. */
  lemma EntryAsWrittenLosesSign()
    ensures var cs := Channels([ChannelInfo(0, 0, "", 3, 3, -9, 0)], 1);
            EntryAsWritten(cs, 0).v == 21842 && Entry(cs, 0).v == -3
  {
    var c := ChannelInfo(0, 0, "", 3, 3, -9, 0);
    assert ToU32(ToI32(-9)) == 0xFFFF_FFF7;
    assert UDiv(0xFFFF_FFF7, 3) == 0x5555_5552;
    assert AvgGetAsWritten(c).0 == 0x5555_5552;
    assert ToI16(0x5555_5552) == 0x5552;
    assert Avg(-9, 3) == -3;
  }

  function Entries(cs: Channels, ids: seq<nat>): (r: seq<PM.ChAvgEntry>)
    requires |cs.info| <= BITMAP_BITS
    requires forall k :: 0 <= k < |ids| ==> ids[k] < |cs.info|
    ensures |r| == |ids| && forall k :: 0 <= k < |ids| ==> r[k] == Entry(cs, ids[k])
  {
    if |ids| == 0 then [] else Entries(cs, ids[..|ids| - 1]) + [Entry(cs, ids[|ids| - 1])]
  }

  lemma MembersInTable(cs: Channels, n: nat)
    requires Valid(cs)
    ensures forall k :: 0 <= k < |Members(cs.bitmap, n)| ==> Members(cs.bitmap, n)[k] < |cs.info|
  {
    MembersAre(cs.bitmap, n);
    forall k | 0 <= k < |Members(cs.bitmap, n)|
      ensures Members(cs.bitmap, n)[k] < |cs.info|
    {
      ConfiguredExists(cs, Members(cs.bitmap, n)[k]);
    }
  }

  /** svc_PwrMon_channelAvgGetAll: one entry per configured channel, in
      ascending id, filling consecutive buffer entries. */
  method AvgGetAll(cs: Channels) returns (out: seq<PM.ChAvgEntry>)
    requires Valid(cs)
    ensures (MembersInTable(cs, |cs.info|); out == Entries(cs, Configured(cs)))
  {
    out := [];
    var b := cs.bitmap;
    var chId: nat := 0;
    MembersInTable(cs, 0);
    while b != 0
      invariant chId <= |cs.info| && b == cs.bitmap / Pow2(chId)
      invariant forall k :: 0 <= k < |Members(cs.bitmap, chId)| ==> Members(cs.bitmap, chId)[k] < |cs.info|
      invariant out == Entries(cs, Members(cs.bitmap, chId))
      decreases b
    {
      if chId >= |cs.info| {
        NoBitsBeyond(cs.bitmap, |cs.info|, chId);
      }
      MembersInTable(cs, chId + 1);
      if b % 2 == 1 {
        assert Bit(cs.bitmap, chId);
        ConfiguredExists(cs, chId);
        assert Members(cs.bitmap, chId + 1) == Members(cs.bitmap, chId) + [chId];
        out := out + [Entry(cs, chId)];
      } else {
        assert Members(cs.bitmap, chId + 1) == Members(cs.bitmap, chId);
      }
      ShiftStep(cs.bitmap, chId);
      b := b / 2;
      chId := chId + 1;
    }
    MembersStable(cs.bitmap, chId, |cs.info|);
  }

  /** With no set bit from k on, the member list up to any bound is the
      list up to k. */
  lemma MembersStable(x: nat, k: nat, n: nat)
    requires x / Pow2(k) == 0 && k <= n
    ensures Members(x, n) == Members(x, k)
  {
    DivModId(x, Pow2(k));
    MembersNoneAbove(x, k, n);
  }

  lemma {:induction false} MembersNoneAbove(x: nat, k: nat, n: nat)
    requires x < Pow2(k) && k <= n
    ensures Members(x, n) == Members(x, k)
    decreases n - k
  {
    if n > k {
      MembersNoneAbove(x, k, n - 1);
      NoBitsAbove(x, k, n - 1);
    }
  }

  /** The entries name exactly the configured channels, each once, in
      strictly ascending id. */
  lemma EntriesAreConfigured(cs: Channels)
    requires Valid(cs)
    ensures (MembersInTable(cs, |cs.info|);
             var es := Entries(cs, Configured(cs));
             |es| == PopCount(cs.bitmap, |cs.info|) &&
             (forall k :: 0 <= k < |es| ==> Bit(cs.bitmap, es[k].chId)) &&
             (forall k, l :: 0 <= k < l < |es| ==> es[k].chId < es[l].chId) &&
             (forall j :: 0 <= j < |cs.info| && Bit(cs.bitmap, j) ==> exists k :: 0 <= k < |es| && es[k].chId == j))
  {
    MembersInTable(cs, |cs.info|);
    MembersAre(cs.bitmap, |cs.info|);
    var es := Entries(cs, Configured(cs));
    forall j | 0 <= j < |cs.info| && Bit(cs.bitmap, j)
      ensures exists k :: 0 <= k < |es| && es[k].chId == j
    {
      MemberAtRank(cs.bitmap, |cs.info|, j);
      var k := PopCount(cs.bitmap, j);
      assert es[k].chId == j;
    }
  }

  /** svc_PwrMon_channelCntGet: the population count of the bitmap. */
  method CntGet(cs: Channels) returns (cnt: u8)
    requires Valid(cs)
    ensures cnt == |Configured(cs)|
  {
    Pow2Monotone(|cs.info|, BITMAP_BITS);
    var c := CountBits(cs.bitmap, BITMAP_BITS);
    NoBitsBeyond(cs.bitmap, |cs.info|, |cs.info|);
    CountRest(cs.bitmap, |cs.info|, BITMAP_BITS);
    cnt := c;
  }
}
