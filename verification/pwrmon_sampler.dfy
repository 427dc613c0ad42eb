/** The power-monitor packet builder (svc_PwrMon_sampler.c). A periodic
    timer tick closes the previous sample set, requests one current and one
    bus-voltage reading per configured channel into the packet being filled,
    and hands the other, completed packet buffer over for transmission.
    Hardware reads, the timer and the packet-ready callback are effects. */
module PwrMonSampler {
  import opened Bytes
  import opened Bits
  import PM = PwrMonMsgs

  const BUFFER_CNT: nat := 2
  const TICK_US: nat := 400
  const BITMAP_BITS: nat := 16
  const M16: nat := 0x1_0000
  const M32: nat := 0x1_0000_0000
  const M64: nat := 0x1_0000_0000_0000_0000

  /** Build-time constants: sample sets per packet, the packet header size in
      bytes and the number of power-monitor channels of the platform. */
  datatype Params = Params(sets: nat, hdrSize: nat, numChannels: nat)

  predicate ValidParams(p: Params) {
    1 <= p.sets <= PM.DATA_IND_SAMPLE_SETS_MAX && p.numChannels <= BITMAP_BITS && p.hdrSize < M16
  }

  /** Completion bitmaps of the sample set being read, and its index. */
  datatype PktInfo = PktInfo(vBitmap: nat, iBitmap: nat, smplSet: nat)

  datatype PktHdr = PktHdr(numCh: nat, numSmplSet: nat, sampleSize: nat, chBitmap: nat,
                           seqNo: nat, smplStartIdx: nat)

  datatype Ctx = Ctx(info: seq<PktInfo>, hdr: seq<PktHdr>, stats: PM.Stats,
                     sampleSize: nat, chBitmap: nat, numCh: nat,
                     pktIdx: nat, pktPrevIdx: nat, firstSample: bool,
                     pktLen: nat, pktRemain: nat)

  datatype Effect =
    | TimerStart(us: nat)
    | TimerStop
      /** A read without callback that leaves the device on the register. */
    | PrimeCurrent(chId: nat)
    | PrimeVoltage(chId: nat)
      /** A read into data cell `slot` of packet buffer `pkt`. */
    | ReadCurrent(chId: nat, pkt: nat, slot: nat)
    | ReadVoltage(chId: nat, pkt: nat, slot: nat)
    | PktReady(pkt: nat, len: nat)

  lemma Pow2Bits()
    ensures Pow2(BITMAP_BITS) == M16
  {
    assert Pow2(8) == 0x100;
    Pow2Add(8, 8);
  }

  /** Two packet buffers, and indices that select one of them. */
  predicate Shape(c: Ctx) {
    |c.info| == BUFFER_CNT && |c.hdr| == BUFFER_CNT && c.pktIdx < BUFFER_CNT && c.pktPrevIdx < BUFFER_CNT
  }

  /** What holds between ticks: the set being filled is inside the packet,
      the channel count covers the configured channels read, and the header of
      the packet being filled carries the number of packets sent before it
      and the sample number of its first set. */
  predicate Inv(p: Params, c: Ctx) {
    Shape(c) && c.info[c.pktIdx].smplSet < p.sets
    && c.chBitmap < M16 && PopCount(c.chBitmap, p.numChannels) <= c.numCh <= BITMAP_BITS
    && c.hdr[c.pktIdx].seqNo == c.stats.pktSndNum
    && c.hdr[c.pktIdx].smplStartIdx == (c.stats.smplNum - c.info[c.pktIdx].smplSet) % M64
  }

  const ZERO_STATS: PM.Stats := PM.Stats(0, 0, 0, 0)
  const ZERO_INFO: PktInfo := PktInfo(0, 0, 0)
  const ZERO_HDR: PktHdr := PktHdr(0, 0, 0, 0, 0, 0)

  /** svc_PwrMon_samplerInit: stop the timer and zero the whole context. */
  function Init(): (r: (Ctx, seq<Effect>))
    ensures Shape(r.0) && r.0.pktRemain == 0 && r.0.stats == ZERO_STATS && r.1 == [TimerStop]
  {
    (Ctx([ZERO_INFO, ZERO_INFO], [ZERO_HDR, ZERO_HDR], ZERO_STATS, 0, 0, 0, 0, 0, false, 0, 0), [TimerStop])
  }

  /** The zeroed context already satisfies the invariant. */
  lemma InitInv(p: Params)
    requires ValidParams(p)
    ensures Inv(p, Init().0)
  {
    NoneSet(0, p.numChannels);
    var c := Init().0;
    assert c.chBitmap == 0 && c.stats.smplNum == 0 && c.info[c.pktIdx].smplSet == 0;
    assert c.hdr[c.pktIdx].smplStartIdx == 0;
  }

  /** svc_PwrMon_samplerStop. */
  function Stop(c: Ctx): (r: (Ctx, seq<Effect>))
    ensures r.0 == c && r.1 == [TimerStop]
  {
    (c, [TimerStop])
  }

  /** One callback-less current and bus-voltage read per listed channel. */
  function Primes(ids: seq<nat>): (r: seq<Effect>)
    ensures |r| == 2 * |ids|
    ensures forall k :: 0 <= k < |ids| ==> r[2 * k] == PrimeCurrent(ids[k]) && r[2 * k + 1] == PrimeVoltage(ids[k])
  {
    if ids == [] then [] else [PrimeCurrent(ids[0]), PrimeVoltage(ids[0])] + Primes(ids[1..])
  }

  /** The reads of one sample set: the k-th listed channel fills cell base + k. */
  function Reads(ids: seq<nat>, pkt: nat, base: nat): (r: seq<Effect>)
    ensures |r| == 2 * |ids|
    ensures forall k :: 0 <= k < |ids| ==>
              r[2 * k] == ReadCurrent(ids[k], pkt, base + k) && r[2 * k + 1] == ReadVoltage(ids[k], pkt, base + k)
  {
    if ids == [] then [] else [ReadCurrent(ids[0], pkt, base), ReadVoltage(ids[0], pkt, base)] + Reads(ids[1..], pkt, base + 1)
  }

  /** svc_PwrMon_samplerStart. The packet indices are left as they were. */
  function Start(p: Params, c: Ctx, chBitmap: nat, sampleSize: nat): (r: (Ctx, seq<Effect>))
    requires Shape(c) && chBitmap < M16
    ensures Shape(r.0) && r.0.pktIdx == c.pktIdx && r.0.firstSample && r.0.stats == ZERO_STATS
  {
    var numCh := PopCount(chBitmap, BITMAP_BITS);
    var h := PktHdr(numCh, p.sets, sampleSize, chBitmap, 0, 0);
    (c.(info := [ZERO_INFO, ZERO_INFO], hdr := [h, h], stats := ZERO_STATS, firstSample := true,
        chBitmap := chBitmap, sampleSize := sampleSize, numCh := numCh,
        pktLen := (p.hdrSize + numCh * p.sets * sampleSize) % M32),
     Primes(Members(chBitmap, p.numChannels)) + [TimerStart(TICK_US)])
  }

  /** A start establishes the invariant, with the set being filled at 0. */
  lemma StartInv(p: Params, c: Ctx, chBitmap: nat, sampleSize: nat)
    requires ValidParams(p) && Shape(c) && chBitmap < M16
    ensures var r := Start(p, c, chBitmap, sampleSize).0;
            Inv(p, r) && r.info[r.pktIdx].smplSet == 0
  {
    PopCountMonotone(chBitmap, p.numChannels, BITMAP_BITS);
  }

  /** Every configured channel below the platform's channel count gets one
      current and one voltage priming read before the timer starts, and no
      other channel does. */
  lemma StartPrimesConfigured(p: Params, c: Ctx, chBitmap: nat, sampleSize: nat, j: nat)
    requires Shape(c) && chBitmap < M16
    ensures var r := Start(p, c, chBitmap, sampleSize);
            |r.1| == 2 * PopCount(chBitmap, p.numChannels) + 1 && r.1[|r.1| - 1] == TimerStart(TICK_US)
            && (PrimeCurrent(j) in r.1 <==> j < p.numChannels && Bit(chBitmap, j))
            && (PrimeVoltage(j) in r.1 <==> j < p.numChannels && Bit(chBitmap, j))
  {
    var r := Start(p, c, chBitmap, sampleSize);
    var ids := Members(chBitmap, p.numChannels);
    PrimesName(ids, j);
    InMembers(chBitmap, p.numChannels, j);
    assert r.1 == Primes(ids) + [TimerStart(TICK_US)];
    assert PrimeCurrent(j) in r.1 <==> PrimeCurrent(j) in Primes(ids);
    assert PrimeVoltage(j) in r.1 <==> PrimeVoltage(j) in Primes(ids);
  }

  /** Both headers describe the same stream and start at sequence 0, sample
      0; the packet length is the header plus one sample per configured
      channel and set. */
  lemma StartHeaders(p: Params, c: Ctx, chBitmap: nat, sampleSize: nat)
    requires Shape(c) && chBitmap < M16 && ValidParams(p) && sampleSize < M16
    ensures var r := Start(p, c, chBitmap, sampleSize);
            r.0.hdr[0] == r.0.hdr[1] && r.0.hdr[0].seqNo == 0 && r.0.hdr[0].smplStartIdx == 0
            && r.0.hdr[0].numCh == r.0.numCh == PopCount(chBitmap, BITMAP_BITS)
            && r.0.hdr[0].numSmplSet == p.sets && r.0.hdr[0].chBitmap == chBitmap
            && r.0.pktLen == p.hdrSize + r.0.numCh * p.sets * sampleSize
  {
    PacketLengthFits(p, PopCount(chBitmap, BITMAP_BITS), sampleSize);
  }

  /** A channel is primed exactly when it is listed. */
  lemma {:induction false} PrimesName(ids: seq<nat>, j: nat)
    ensures PrimeCurrent(j) in Primes(ids) <==> j in ids
    ensures PrimeVoltage(j) in Primes(ids) <==> j in ids
    decreases |ids|
  {
    if ids != [] {
      PrimesName(ids[1..], j);
      assert Primes(ids) == [PrimeCurrent(ids[0]), PrimeVoltage(ids[0])] + Primes(ids[1..]);
      assert j in ids <==> j == ids[0] || j in ids[1..] by {
        assert ids == [ids[0]] + ids[1..];
      }
    }
  }

  /** The length stays far below 2^32 for up to 16 channels of up to 2^16
      bytes per sample: no truncation happens. */
  lemma PacketLengthFits(p: Params, numCh: nat, sampleSize: nat)
    requires ValidParams(p) && numCh <= BITMAP_BITS
    ensures sampleSize < M16 ==> (p.hdrSize + numCh * p.sets * sampleSize) % M32 == p.hdrSize + numCh * p.sets * sampleSize
  {
    if sampleSize < M16 {
      var cells := numCh * p.sets;
      MulMono(numCh, 16, p.sets);
      MulMono(p.sets, 50, 16);
      assert cells <= 800;
      var body := cells * sampleSize;
      MulMono(cells, 800, sampleSize);
      MulMono(sampleSize, M16, 800);
      assert body < 800 * M16;
      ModId(p.hdrSize + body, M32);
    }
  }

  /** The set being read finished: every read callback came back. */
  predicate SetComplete(c: Ctx)
    requires Shape(c)
  {
    c.info[c.pktIdx].iBitmap == 0 && c.info[c.pktIdx].vBitmap == 0
  }

  /** svc_PwrMon_checkForCompletion: close the previous sample set and say
      whether the packet it belonged to is full. */
  function CheckForCompletion(p: Params, c: Ctx): (r: (Ctx, bool))
    requires Shape(c)
    ensures Shape(r.0)
    ensures c.firstSample ==> r == (c.(firstSample := false), false)
    ensures r.0.chBitmap == c.chBitmap && r.0.numCh == c.numCh && r.0.pktLen == c.pktLen && r.0.pktRemain == c.pktRemain
  {
    if c.firstSample then (c.(firstSample := false), false)
    else
      var smplSet := (c.info[c.pktIdx].smplSet + 1) % M16;
      var info := c.info[c.pktIdx := c.info[c.pktIdx].(smplSet := smplSet)];
      var smplNum := (c.stats.smplNum + 1) % M64;
      var smplErrNum := if SetComplete(c) then c.stats.smplErrNum else (c.stats.smplErrNum + 1) % M32;
      var stats := c.stats.(smplNum := smplNum, smplErrNum := smplErrNum);
      if smplSet == p.sets then
        var next := (c.pktIdx + 1) % BUFFER_CNT;
        var pktErrNum := (stats.pktErrNum + (if c.pktRemain != 0 then 1 else 0)) % M32;
        var pktSndNum := (stats.pktSndNum + 1) % M32;
        (c.(info := info[next := info[next].(smplSet := 0)],
            hdr := c.hdr[next := c.hdr[next].(seqNo := pktSndNum, smplStartIdx := smplNum)],
            stats := stats.(pktErrNum := pktErrNum, pktSndNum := pktSndNum),
            pktPrevIdx := c.pktIdx, pktIdx := next),
         true)
      else
        (c.(info := info, stats := stats), false)
  }

  /** svc_PwrMon_samplerCallback: one timer tick. The new context is
      TickState; the effects are the reads of the new set, then the hand-over
      of a completed packet. */
  function Tick(p: Params, c: Ctx): (r: (Ctx, seq<Effect>))
    requires Shape(c)
    ensures Shape(r.0)
  {
    var chk := CheckForCompletion(p, c);
    var c1 := chk.0;
    var offset := (c1.info[c1.pktIdx].smplSet * c1.numCh) % M16;
    var rd := Reads(Members(c1.chBitmap, p.numChannels), c1.pktIdx, offset);
    (TickState(p, c), if chk.1 then rd + [PktReady(c1.pktPrevIdx, c1.pktLen)] else rd)
  }

  /** The context after one timer tick: completion bookkeeping, then both
      bitmaps of the set reset to the configured channels. */
  function TickState(p: Params, c: Ctx): (r: Ctx)
    requires Shape(c)
    ensures Shape(r)
  {
    var chk := CheckForCompletion(p, c);
    var c1 := chk.0;
    var smplSet := c1.info[c1.pktIdx].smplSet;
    var c2 := c1.(info := c1.info[c1.pktIdx := PktInfo(c1.chBitmap, c1.chBitmap, smplSet)]);
    if chk.1 then c2.(pktRemain := c2.pktLen) else c2
  }

  /** svc_PwrMon_voltageCallback. */
  function VoltageDone(c: Ctx, chId: nat): (r: Ctx)
    requires Shape(c)
    ensures Shape(r) && r.pktIdx == c.pktIdx && r.info[r.pktIdx].iBitmap == c.info[c.pktIdx].iBitmap
    ensures r.info[r.pktIdx].smplSet == c.info[c.pktIdx].smplSet && r.info[1 - r.pktIdx] == c.info[1 - c.pktIdx]
  {
    var x := c.info[c.pktIdx].vBitmap;
    c.(info := c.info[c.pktIdx := c.info[c.pktIdx].(vBitmap := ToggleBit(x, chId))])
  }

  /** svc_PwrMon_currentCallback. */
  function CurrentDone(c: Ctx, chId: nat): (r: Ctx)
    requires Shape(c)
    ensures Shape(r) && r.pktIdx == c.pktIdx && r.info[r.pktIdx].vBitmap == c.info[c.pktIdx].vBitmap
    ensures r.info[r.pktIdx].smplSet == c.info[c.pktIdx].smplSet && r.info[1 - r.pktIdx] == c.info[1 - c.pktIdx]
  {
    var x := c.info[c.pktIdx].iBitmap;
    c.(info := c.info[c.pktIdx := c.info[c.pktIdx].(iBitmap := ToggleBit(x, chId))])
  }

  /** The completion bitmaps are toggled, not cleared: a second voltage
      completion for the same channel in one period marks it pending again,
      leaving the sampler as it was before the first. */
  lemma RepeatedVoltageDoneRestores(c: Ctx, chId: nat)
    requires Shape(c)
    ensures VoltageDone(VoltageDone(c, chId), chId) == c
  {
    ToggleTwice(c.info[c.pktIdx].vBitmap, chId);
  }

  /** Likewise for a repeated current completion. */
  lemma RepeatedCurrentDoneRestores(c: Ctx, chId: nat)
    requires Shape(c)
    ensures CurrentDone(CurrentDone(c, chId), chId) == c
  {
    ToggleTwice(c.info[c.pktIdx].iBitmap, chId);
  }

  /** svc_PwrMon_samplerPktSentCallback. */
  function SentDone(c: Ctx): (r: Ctx)
    ensures r.pktRemain == 0 && r == c.(pktRemain := 0)
  {
    c.(pktRemain := 0)
  }

  /** The callbacks and the sent notification keep the invariant. */
  lemma CallbacksKeepInv(p: Params, c: Ctx, chId: nat)
    requires Inv(p, c)
    ensures Inv(p, VoltageDone(c, chId)) && Inv(p, CurrentDone(c, chId)) && Inv(p, SentDone(c))
  {
  }

  lemma CheckKeepsInv(p: Params, c: Ctx)
    requires ValidParams(p) && Inv(p, c)
    ensures Inv(p, CheckForCompletion(p, c).0)
  {
    if c.firstSample {
      assert CheckForCompletion(p, c).0 == c.(firstSample := false);
    } else {
      var s := c.info[c.pktIdx].smplSet;
      if s + 1 < p.sets {
        CheckKeepsInvMid(p, c);
      } else {
        CheckKeepsInvFull(p, c);
      }
    }
  }

  lemma CheckKeepsInvMid(p: Params, c: Ctx)
    requires ValidParams(p) && Inv(p, c) && !c.firstSample && c.info[c.pktIdx].smplSet + 1 < p.sets
    ensures Inv(p, CheckForCompletion(p, c).0)
  {
    var s := c.info[c.pktIdx].smplSet;
    ModId(s + 1, M16);
    SameOffset(c.stats.smplNum, s);
    var r := CheckForCompletion(p, c).0;
    assert r.pktIdx == c.pktIdx && r.hdr == c.hdr && r.chBitmap == c.chBitmap && r.numCh == c.numCh;
    assert r.info[r.pktIdx].smplSet == s + 1;
    assert r.stats.smplNum == (c.stats.smplNum + 1) % M64 && r.stats.pktSndNum == c.stats.pktSndNum;
  }

  lemma CheckKeepsInvFull(p: Params, c: Ctx)
    requires ValidParams(p) && Inv(p, c) && !c.firstSample && c.info[c.pktIdx].smplSet + 1 == p.sets
    ensures Inv(p, CheckForCompletion(p, c).0)
  {
    var s := c.info[c.pktIdx].smplSet;
    ModId(s + 1, M16);
    NextBuffer(c.pktIdx);
    var r := CheckForCompletion(p, c).0;
    var next := 1 - c.pktIdx;
    assert r.pktIdx == next;
    assert r.info[next].smplSet == 0;
    assert r.hdr[next].seqNo == r.stats.pktSndNum;
    ModId(r.stats.smplNum, M64);
    assert r.hdr[next].smplStartIdx == r.stats.smplNum;
  }

  lemma ModId(x: int, m: int)
    requires 0 <= x < m
    ensures x % m == x && (x - 0) % m == x
  {
  }

  /** Counting one more sample into the set keeps their difference. */
  lemma SameOffset(n: nat, s: nat)
    requires n < M64 && s < M16
    ensures ((n + 1) % M64 - (s + 1)) % M64 == (n - s) % M64
  {
    if n + 1 == M64 {
      assert (n + 1) % M64 == 0;
      assert (0 - (s + 1)) == (n - s) - M64;
    }
  }

  /** A tick keeps the invariant. */
  lemma TickKeepsInv(p: Params, c: Ctx)
    requires ValidParams(p) && Inv(p, c)
    ensures Inv(p, TickState(p, c))
  {
    CheckKeepsInv(p, c);
  }

  /** The reads of a tick go to the packet being filled, one cell per
      configured channel in ascending id order (see Reads), starting at cell
      smplSet * numCh and never beyond the sets * numCh cells of the packet. */
  lemma TickReadsCells(p: Params, c: Ctx)
    requires ValidParams(p) && Inv(p, c)
    ensures var r := Tick(p, c);
            var ids := Members(c.chBitmap, p.numChannels);
            var base := r.0.info[r.0.pktIdx].smplSet * c.numCh;
            2 * |ids| <= |r.1| <= 2 * |ids| + 1
            && r.1[..2 * |ids|] == Reads(ids, r.0.pktIdx, base)
            && base + |ids| <= p.sets * c.numCh
  {
    CheckKeepsInv(p, c);
    var c1 := CheckForCompletion(p, c).0;
    var s := c1.info[c1.pktIdx].smplSet;
    var ids := Members(c.chBitmap, p.numChannels);
    SlotBounds(s, c.numCh, |ids|, p.sets);
    TickParts(p, c);
  }

  /** The context after a tick is the completed check's, with the set's
      bitmaps reset to the configured channels. */
  lemma TickStateParts(p: Params, c: Ctx)
    requires Shape(c)
    ensures var c1 := CheckForCompletion(p, c).0;
            var r := TickState(p, c);
            r.pktIdx == c1.pktIdx && r.info[r.pktIdx].smplSet == c1.info[c1.pktIdx].smplSet
            && r.stats == c1.stats && r.firstSample == c1.firstSample && r.hdr == c1.hdr
            && r.info[r.pktIdx].vBitmap == c1.chBitmap && r.info[r.pktIdx].iBitmap == c1.chBitmap
  {
  }

  /** A tick is the completion check followed by the reads of the set it
      starts, then the hand-over if the check said so. */
  lemma TickParts(p: Params, c: Ctx)
    requires Shape(c)
    ensures var c1 := CheckForCompletion(p, c).0;
            var r := Tick(p, c);
            var ids := Members(c1.chBitmap, p.numChannels);
            var s := c1.info[c1.pktIdx].smplSet;
            r.0.pktIdx == c1.pktIdx && r.0.info[r.0.pktIdx].smplSet == s
            && r.0.stats == c1.stats && r.0.firstSample == c1.firstSample && r.0.hdr == c1.hdr
            && r.0.info[r.0.pktIdx].vBitmap == c1.chBitmap && r.0.info[r.0.pktIdx].iBitmap == c1.chBitmap
            && 2 * |ids| <= |r.1| <= 2 * |ids| + 1
            && r.1[..2 * |ids|] == Reads(ids, c1.pktIdx, (s * c1.numCh) % M16)
  {
    var c1 := CheckForCompletion(p, c).0;
    var ids := Members(c1.chBitmap, p.numChannels);
    var s := c1.info[c1.pktIdx].smplSet;
    var rd := Reads(ids, c1.pktIdx, (s * c1.numCh) % M16);
    TickStateParts(p, c);
    var r := Tick(p, c);
    assert r.1 == rd || r.1 == rd + [PktReady(c1.pktPrevIdx, c1.pktLen)];
    assert (rd + [PktReady(c1.pktPrevIdx, c1.pktLen)])[..2 * |ids|] == rd;
  }

  /** The cells of set s lie below sets * numCh, and no 16-bit truncation
      of the offset happens. */
  lemma SlotBounds(s: nat, numCh: nat, n: nat, sets: nat)
    requires s < sets <= PM.DATA_IND_SAMPLE_SETS_MAX && n <= numCh <= BITMAP_BITS
    ensures (s * numCh) % M16 == s * numCh && s * numCh + n <= sets * numCh
  {
    MulMono(s, PM.DATA_IND_SAMPLE_SETS_MAX, numCh);
    MulMono(numCh, BITMAP_BITS, PM.DATA_IND_SAMPLE_SETS_MAX);
    MulMono(s + 1, sets, numCh);
  }

  /** A packet is handed over exactly on the tick that fills its last set:
      the packet just completed (holding every set, and whose header carries
      the number of packets sent before it and the number of its first
      sample) is offered with the stream's packet length, the other buffer
      becomes the one being filled, and an unfinished previous transfer
      counts as a packet error. */
  lemma TickHandsOverFullPacket(p: Params, c: Ctx)
    requires ValidParams(p) && Inv(p, c)
    requires !c.firstSample && c.info[c.pktIdx].smplSet + 1 == p.sets
    ensures var r := Tick(p, c);
            r.1 != [] && r.1[|r.1| - 1] == PktReady(c.pktIdx, c.pktLen)
            && r.0.pktIdx == 1 - c.pktIdx && r.0.pktRemain == c.pktLen
            && r.0.info[c.pktIdx].smplSet == p.sets
            && r.0.hdr[c.pktIdx].seqNo == c.stats.pktSndNum
            && r.0.hdr[c.pktIdx].smplStartIdx == (r.0.stats.smplNum - p.sets) % M64
            && r.0.stats.pktSndNum == (c.stats.pktSndNum + 1) % M32
            && r.0.stats.pktErrNum == (c.stats.pktErrNum + (if c.pktRemain != 0 then 1 else 0)) % M32
  {
    var s := c.info[c.pktIdx].smplSet;
    ModId(s + 1, M16);
    NextBuffer(c.pktIdx);
    SameOffset(c.stats.smplNum, s);
    var c1 := CheckForCompletion(p, c);
    assert c1.1 && c1.0.pktPrevIdx == c.pktIdx && c1.0.pktIdx == 1 - c.pktIdx;
    assert c1.0.hdr[c.pktIdx] == c.hdr[c.pktIdx];
    assert c1.0.info[c.pktIdx].smplSet == p.sets;
    var r := Tick(p, c);
    assert r.0.stats == c1.0.stats && r.0.hdr == c1.0.hdr;
    assert r.0.stats.smplNum == (c.stats.smplNum + 1) % M64;
    assert r.0.hdr[c.pktIdx].smplStartIdx == (c.stats.smplNum - s) % M64;
  }

  /** On every other tick no packet is offered, the same buffer keeps
      filling, and the packet counters stay. */
  lemma TickKeepsFilling(p: Params, c: Ctx)
    requires ValidParams(p) && Inv(p, c)
    requires c.firstSample || c.info[c.pktIdx].smplSet + 1 != p.sets
    ensures var r := Tick(p, c);
            r.0.pktIdx == c.pktIdx && r.0.pktRemain == c.pktRemain
            && r.0.stats.pktErrNum == c.stats.pktErrNum && r.0.stats.pktSndNum == c.stats.pktSndNum
            && forall e :: e in r.1 ==> !e.PktReady?
  {
    if !c.firstSample {
      ModId(c.info[c.pktIdx].smplSet + 1, M16);
    }
    var r := Tick(p, c);
    var c1 := CheckForCompletion(p, c).0;
    var ids := Members(c1.chBitmap, p.numChannels);
    var offset := (c1.info[c1.pktIdx].smplSet * c1.numCh) % M16;
    assert r.1 == Reads(ids, c1.pktIdx, offset);
    forall e | e in r.1 ensures !e.PktReady? {
      var i :| 0 <= i < |r.1| && r.1[i] == e;
      ReadAt(ids, c1.pktIdx, offset, i);
    }
  }

  lemma ReadAt(ids: seq<nat>, pkt: nat, base: nat, e: nat)
    requires e < 2 * |ids|
    ensures Reads(ids, pkt, base)[e].ReadCurrent? || Reads(ids, pkt, base)[e].ReadVoltage?
  {
    var k := e / 2;
    if e % 2 == 0 {
      assert e == 2 * k;
      assert Reads(ids, pkt, base)[2 * k] == ReadCurrent(ids[k], pkt, base + k);
    } else {
      assert e == 2 * k + 1;
      assert Reads(ids, pkt, base)[2 * k + 1] == ReadVoltage(ids[k], pkt, base + k);
    }
  }

  /** n ticks with no callback in between. */
  function Run(p: Params, c: Ctx, n: nat): (r: Ctx)
    requires Shape(c)
    ensures Shape(r)
    decreases n
  {
    if n == 0 then c else TickState(p, Run(p, c, n - 1))
  }

  /** The sampler has counted n samples since its first tick: the invariant
      holds, one packet went out per `sets` samples, and the set being
      filled is n mod sets. */
  predicate Counted(p: Params, r: Ctx, n: nat)
    requires ValidParams(p)
  {
    Inv(p, r) && !r.firstSample
    && r.stats.smplNum == n && r.stats.pktSndNum == n / p.sets
    && r.info[r.pktIdx].smplSet == n % p.sets
  }

  /** The state a start leaves: invariant, counters zero, first sample
      pending, filling set 0. */
  predicate Started(p: Params, c: Ctx)
    requires ValidParams(p)
  {
    Inv(p, c) && c.firstSample && c.stats == ZERO_STATS && c.info[c.pktIdx].smplSet == 0
  }

  /** After a start and n + 1 ticks, n samples have been counted, one packet
      per `sets` samples has been handed over, and the set being filled is
      n mod sets (counters below 2^32). */
  lemma {:induction false} RunCounts(p: Params, c: Ctx, n: nat)
    requires ValidParams(p) && Started(p, c) && n < M32
    ensures Counted(p, Run(p, c, n + 1), n)
    decreases n
  {
    if n == 0 {
      FirstTick(p, c);
    } else {
      RunCounts(p, c, n - 1);
      RunOneMore(p, c, n);
    }
  }

  /** Run unfolded once: the (n + 1)th tick is one RunStep. */
  lemma RunOneMore(p: Params, c: Ctx, n: nat)
    requires ValidParams(p) && Shape(c) && 0 < n < M32 && Counted(p, Run(p, c, n), n - 1)
    ensures Counted(p, Run(p, c, n + 1), n)
  {
    RunStep(p, Run(p, c, n), n - 1);
  }

  /** The first tick after a start only arms the sampler. */
  lemma FirstTick(p: Params, c: Ctx)
    requires ValidParams(p) && Started(p, c)
    ensures Counted(p, TickState(p, c), 0)
  {
    TickKeepsInv(p, c);
    TickStateParts(p, c);
  }

  /** The step of RunCounts: one tick moves the counters from m to m + 1. */
  lemma RunStep(p: Params, q: Ctx, m: nat)
    requires ValidParams(p) && Counted(p, q, m) && m + 1 < M32
    ensures Counted(p, TickState(p, q), m + 1)
  {
    TickKeepsInv(p, q);
    TickCounts(p, q);
    var r := TickState(p, q);
    CountArith(p.sets, m, q.info[q.pktIdx].smplSet, q.stats.pktSndNum,
               r.info[r.pktIdx].smplSet, r.stats.pktSndNum, r.stats.smplNum);
  }

  /** The counter arithmetic of one tick: a wrapping set index and packet
      count track the quotient and remainder of the sample count. */
  lemma CountArith(sets: nat, m: nat, s: nat, k: nat, s2: nat, k2: nat, n2: nat)
    requires sets > 0 && m + 1 < M32 && s == m % sets && k == m / sets
    requires n2 == (m + 1) % M64
    requires s + 1 == sets ==> k2 == (k + 1) % M32 && s2 == 0
    requires s + 1 < sets ==> k2 == k && s2 == s + 1
    ensures n2 == m + 1 && k2 == (m + 1) / sets && s2 == (m + 1) % sets
  {
    DivSucc(m, sets);
    ModId(m + 1, M64);
    DivBelow(m + 1, sets);
    ModId((m + 1) / sets, M32);
  }

  lemma DivBelow(n: nat, d: nat)
    requires d > 0
    ensures n / d <= n
  {
    DivModId(n, d);
    MulMono(1, d, n / d);
  }

  /** One tick after the first: one more sample; the set index and the
      packet counters advance, wrapping to the other buffer when full. */
  lemma TickCounts(p: Params, c: Ctx)
    requires ValidParams(p) && Inv(p, c) && !c.firstSample
    ensures var r := TickState(p, c);
            var s := c.info[c.pktIdx].smplSet;
            !r.firstSample && r.stats.smplNum == (c.stats.smplNum + 1) % M64
            && (s + 1 == p.sets ==> r.stats.pktSndNum == (c.stats.pktSndNum + 1) % M32
                                    && r.info[r.pktIdx].smplSet == 0 && r.pktIdx == 1 - c.pktIdx)
            && (s + 1 < p.sets ==> r.stats.pktSndNum == c.stats.pktSndNum
                                   && r.info[r.pktIdx].smplSet == s + 1 && r.pktIdx == c.pktIdx)
  {
    var s := c.info[c.pktIdx].smplSet;
    ModId(s + 1, M16);
    NextBuffer(c.pktIdx);
    TickStateParts(p, c);
  }

  lemma NextBuffer(i: nat)
    requires i < BUFFER_CNT
    ensures (i + 1) % BUFFER_CNT == 1 - i
  {
  }

  /** Counting one further: the remainder wraps to 0 exactly when the
      quotient goes up. */
  lemma DivSucc(n: nat, d: nat)
    requires d > 0
    ensures n % d + 1 == d ==> (n + 1) / d == n / d + 1 && (n + 1) % d == 0
    ensures n % d + 1 < d ==> (n + 1) / d == n / d && (n + 1) % d == n % d + 1
  {
    var q := n / d;
    var m := n % d;
    DivModId(n, d);
    if m + 1 == d {
      assert n + 1 == (q + 1) * d + 0;
      DivMul(q + 1, 0, d);
    } else {
      assert n + 1 == q * d + (m + 1);
      DivMul(q, m + 1, d);
    }
  }

  /** Toggling bit ids[0], then ids[1], ...: the read callbacks of one set. */
  function ToggleAll(x: nat, ids: seq<nat>): (r: nat)
    decreases |ids|
  {
    if ids == [] then x else ToggleAll(ToggleBit(x, ids[0]), ids[1..])
  }

  predicate Distinct(ids: seq<nat>) {
    forall a, b :: 0 <= a < b < |ids| ==> ids[a] != ids[b]
  }

  /** With no channel reported twice, bit j ends up flipped exactly when j
      reported; the width of the bitmap is kept. */
  lemma {:induction false} BitsOfToggleAll(x: nat, ids: seq<nat>, w: nat, j: nat)
    requires Distinct(ids) && x < Pow2(w) && forall k :: 0 <= k < |ids| ==> ids[k] < w
    ensures ToggleAll(x, ids) < Pow2(w)
    ensures Bit(ToggleAll(x, ids), j) <==> (Bit(x, j) != (j in ids))
    decreases |ids|
  {
    if ids != [] {
      var y := ToggleBit(x, ids[0]);
      SetBitBounded(x, ids[0], w);
      BitOfToggleBit(x, ids[0], j);
      assert Distinct(ids[1..]);
      BitsOfToggleAll(y, ids[1..], w, j);
      assert j in ids <==> j == ids[0] || j in ids[1..] by {
        assert ids == [ids[0]] + ids[1..];
      }
      if j == ids[0] {
        assert j !in ids[1..];
      }
    }
  }

  /** The completion bitmap clears exactly when the channels that reported,
      each at most once, are the channels it was loaded with. */
  lemma ToggleAllClears(x: nat, ids: seq<nat>, w: nat)
    requires Distinct(ids) && x < Pow2(w) && forall k :: 0 <= k < |ids| ==> ids[k] < w
    ensures ToggleAll(x, ids) == 0 <==> forall j :: 0 <= j < w ==> (Bit(x, j) <==> j in ids)
  {
    var y := ToggleAll(x, ids);
    BitsOfToggleAll(x, ids, w, 0);
    if forall j :: 0 <= j < w ==> (Bit(x, j) <==> j in ids) {
      forall j | 0 <= j < w ensures !Bit(y, j) {
        BitsOfToggleAll(x, ids, w, j);
      }
      NoneSet(y, w);
      ZeroWithoutBits(y, w);
    } else {
      var j :| 0 <= j < w && !(Bit(x, j) <==> j in ids);
      BitsOfToggleAll(x, ids, w, j);
      assert Bit(y, j);
    }
  }

  lemma {:induction false} NoneSet(y: nat, w: nat)
    requires forall j :: 0 <= j < w ==> !Bit(y, j)
    ensures PopCount(y, w) == 0
    decreases w
  {
    if w > 0 {
      NoneSet(y, w - 1);
    }
  }

  /** Voltage callbacks for vs and current callbacks for cs, in order. */
  function Callbacks(c: Ctx, vs: seq<nat>, cs: seq<nat>): (r: Ctx)
    requires Shape(c)
    ensures Shape(r) && r.pktIdx == c.pktIdx
    ensures r.info[r.pktIdx].vBitmap == ToggleAll(c.info[c.pktIdx].vBitmap, vs)
    ensures r.info[r.pktIdx].iBitmap == ToggleAll(c.info[c.pktIdx].iBitmap, cs)
    decreases |vs| + |cs|
  {
    if vs != [] then Callbacks(VoltageDone(c, vs[0]), vs[1..], cs)
    else if cs != [] then Callbacks(CurrentDone(c, cs[0]), vs, cs[1..])
    else c
  }

  /** After a tick, the set it started completes exactly when every
      configured channel has reported its current and its voltage once. */
  lemma SetCompletesWhenAllReport(p: Params, c: Ctx, vs: seq<nat>, cs: seq<nat>)
    requires ValidParams(p) && Inv(p, c)
    requires Distinct(vs) && Distinct(cs)
    requires forall k :: 0 <= k < |vs| ==> vs[k] < BITMAP_BITS
    requires forall k :: 0 <= k < |cs| ==> cs[k] < BITMAP_BITS
    ensures var t := Tick(p, c).0;
            SetComplete(Callbacks(t, vs, cs)) <==>
              forall j :: 0 <= j < BITMAP_BITS ==> (Bit(c.chBitmap, j) <==> j in vs) && (Bit(c.chBitmap, j) <==> j in cs)
  {
    var t := Tick(p, c).0;
    assert t.info[t.pktIdx].vBitmap == c.chBitmap && t.info[t.pktIdx].iBitmap == c.chBitmap;
    Pow2Bits();
    ToggleAllClears(c.chBitmap, vs, BITMAP_BITS);
    ToggleAllClears(c.chBitmap, cs, BITMAP_BITS);
  }
}
