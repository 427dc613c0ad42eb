/** The host's power-monitor message codecs (test/EventHandler_PwrMon.py).
    Message numbers here are the host's own; they differ from the
    firmware's numbering. */
module HostPwrMon {
  import opened Wrappers
  import opened Bytes
  import P = HostProtocol
  import opened HostEventHandler

  const START_REQ: MsgNum := 0
  const START_CNF: MsgNum := 1
  const STOP_REQ: MsgNum := 2
  const STOP_CNF: MsgNum := 3
  const CONFIG_REQ: MsgNum := 4
  const CONFIG_CNF: MsgNum := 5
  const DATA_IND: MsgNum := 6
  const STATS_REQ: MsgNum := 7
  const STATS_CNF: MsgNum := 8
  const CH_AVG_REQ: MsgNum := 9
  const CH_AVG_CNF: MsgNum := 10

  /** str.encode('utf8') of one Unicode scalar value. */
  function Utf8Char(c: char): (r: seq<u8>)
    ensures 1 <= |r| <= 4
    ensures (c as int) < 0x80 <==> r == [c as int]
  {
    var v := c as int;
    if v < 0x80 then [v]
    else if v < 0x800 then [0xC0 + v / 0x40, 0x80 + v % 0x40]
    else if v < 0x1_0000 then [0xE0 + v / 0x1000, 0x80 + (v / 0x40) % 0x40, 0x80 + v % 0x40]
    else [0xF0 + v / 0x4_0000, 0x80 + (v / 0x1000) % 0x40, 0x80 + (v / 0x40) % 0x40, 0x80 + v % 0x40]
  }

  function Utf8(s: string): (r: seq<u8>)
    ensures |r| >= |s|
  {
    if |s| == 0 then [] else Utf8Char(s[0]) + Utf8(s[1..])
  }

  predicate IsAscii(s: string) {
    forall i :: 0 <= i < |s| ==> (s[i] as int) < 0x80
  }

  /** An ASCII name encodes to its own code points, one byte each. */
  lemma {:induction false} Utf8Ascii(s: string)
    requires IsAscii(s)
    ensures |Utf8(s)| == |s|
    ensures forall i :: 0 <= i < |s| ==> Utf8(s)[i] == s[i] as int
  {
    if |s| > 0 {
      assert IsAscii(s[1..]) by {
        forall i | 0 <= i < |s| - 1 ensures (s[1..][i] as int) < 0x80 {
          assert s[1..][i] == s[i + 1];
        }
      }
      Utf8Ascii(s[1..]);
    }
  }

  function Zeros(n: nat): (r: seq<u8>)
    ensures |r| == n && forall i :: 0 <= i < n ==> r[i] == 0
  {
    seq(n, _ => 0)
  }

  /** EventHandlerPwrMonChConfigEntry: "<BH"(id, shunt), the UTF-8 name,
      then 41 - len(name) NUL characters (none when the name is longer). */
  function ChConfigEntry(id: u8, shunt: u16, name: string): (r: seq<u8>)
    ensures |r| == 3 + |Utf8(name)| + (if |name| <= 41 then 41 - |name| else 0)
    ensures r[0] == id && FromLE(r[1..3]) == shunt
  {
    var pad := if |name| <= 41 then 41 - |name| else 0;
    var r := [id] + U16(shunt) + Utf8(name) + Zeros(pad);
    assert r[1..3] == U16(shunt);
    r
  }

  /** An ASCII name of at most 41 characters gives a 44-byte entry: the name
      at offset 3 followed by NULs up to the end. */
  lemma ChConfigEntryAscii(id: u8, shunt: u16, name: string)
    requires IsAscii(name) && |name| <= 41
    ensures var e := ChConfigEntry(id, shunt, name);
            |e| == 44
            && (forall i :: 0 <= i < |name| ==> e[3 + i] == name[i] as int)
            && (forall i :: 3 + |name| <= i < 44 ==> e[i] == 0)
  {
    Utf8Ascii(name);
    var e := ChConfigEntry(id, shunt, name);
    assert e == [id] + U16(shunt) + Utf8(name) + Zeros(41 - |name|);
  }

  /** The channels of a config request. */
  datatype ChConfig = ChConfig(id: u8, shunt: u16, name: string)

  function Entries(chs: seq<ChConfig>): seq<u8>
  {
    if |chs| == 0 then [] else ChConfigEntry(chs[0].id, chs[0].shunt, chs[0].name) + Entries(chs[1..])
  }

  /** EventHandlerPwrMonConfigReq: "<BB"(smplFmt, number of channels) then
      the entries in order, sent as a request from PYTHON to PWRMON. */
  function ConfigReq(smplFmt: u8, chs: seq<ChConfig>): (r: Result<Msg, P.Error>)
    ensures |chs| >= 0x100 ==> r == Failure(P.StructError)
    ensures r.Success? ==> |r.value.payload| >= 2 && r.value.payload[..2] == [smplFmt, |chs|] && r.value.payload[2..] == Entries(chs)
    ensures r.Success? ==> r.value.hdr.eh == PYTHON && r.value.hdr.msgId == MsgId(PWRMON, REQ_RSP, CONFIG_REQ)
  {
    if |chs| >= 0x100 then Failure(P.StructError)
    else
      var payload := [smplFmt, |chs|] + Entries(chs);
      BuildKindMsg(Req, PYTHON, PWRMON, CONFIG_REQ, payload)
  }

  /** The four sampling counters of a stats confirm. */
  datatype Stats = Stats(smplNum: u64, smplErrNum: u32, pktSndNum: u32, pktErrNum: u32)

  /** "<QLLL" packing of the stats confirm payload. */
  function StatsPayload(s: Stats): (r: seq<u8>)
    ensures |r| == 20
  {
    U64(s.smplNum) + U32(s.smplErrNum) + U32(s.pktSndNum) + U32(s.pktErrNum)
  }

  /** "<QLLL" unpacking; struct.error unless exactly 20 bytes. */
  function ParseStats(b: seq<u8>): (r: Result<Stats, P.Error>)
    ensures r.Success? <==> |b| == 20
  {
    if |b| != 20 then Failure(P.StructError)
    else
      Pow256Values();
      Success(Stats(Field(b, 0, 8), Field(b, 8, 4), Field(b, 12, 4), Field(b, 16, 4)))
  }

  /** Unpacking the packed counters returns all four of them. */
  lemma StatsRoundTrip(s: Stats)
    ensures ParseStats(StatsPayload(s)) == Success(s)
  {
    var b := StatsPayload(s);
    assert b[0..8] == U64(s.smplNum) && b[8..12] == U32(s.smplErrNum);
    assert b[12..16] == U32(s.pktSndNum) && b[16..20] == U32(s.pktErrNum);
  }

  /** One channel average as decoded: "<BHH"(id, v, i). */
  datatype ChAvg = ChAvg(id: u8, v: u16, i: u16)

  /** EventHandlerPwrMonChAvgEntry(data=...): exactly 5 bytes. */
  function ParseChAvg(b: seq<u8>): (r: Result<ChAvg, P.Error>)
    ensures r.Success? <==> |b| == 5
  {
    if |b| != 5 then Failure(P.StructError)
    else Success(ChAvg(b[0], Field(b, 1, 2), Field(b, 3, 2)))
  }

  /** EventHandlerPwrMonChAvgEntry(id, v, i) as written: the format
      "<BHH" names three fields but only (v, i) are passed, so struct.pack
      raises whatever the values. */
  function ChAvgBytesAsWritten(a: ChAvg): (r: Result<seq<u8>, P.Error>)
    ensures r.Failure?
  {
    Failure(P.StructError)
  }

  /** No entry can be built by the host, while the intended packing of the
      same entry decodes back to it. */
  lemma ChAvgAsWrittenNeverBuilds(a: ChAvg)
    ensures ChAvgBytesAsWritten(a).Failure? && ParseChAvg(ChAvgBytes(a)) == Success(a)
  {
  }

  /** The evidently intended packing "<BHH"(id, v, i). */
  function ChAvgBytes(a: ChAvg): (r: seq<u8>)
    ensures |r| == 5 && ParseChAvg(r) == Success(a)
  {
    var r := [a.id] + U16(a.v) + U16(a.i);
    assert r[1..3] == U16(a.v) && r[3..5] == U16(a.i);
    r
  }

  /** EventHandlerPwrMonChAvgCnf(data=...): a count byte, then that many
      5-byte entries from offset 1; bytes beyond them are ignored. */
  function ParseChAvgs(payload: seq<u8>): (r: Result<seq<ChAvg>, P.Error>)
    ensures r.Success? <==> |payload| >= 1 && |payload| >= 1 + 5 * (payload[0] as int)
    ensures r.Success? ==> |r.value| == payload[0] as int
    ensures r.Success? ==> forall k :: 0 <= k < |r.value| ==>
              ParseChAvg(payload[1 + 5 * k..6 + 5 * k]) == Success(r.value[k])
  {
    if |payload| < 1 then Failure(P.StructError)
    else ParseEntries(payload, payload[0])
  }

  function ParseEntries(payload: seq<u8>, n: nat): (r: Result<seq<ChAvg>, P.Error>)
    requires |payload| >= 1
    ensures r.Success? <==> |payload| >= 1 + 5 * n
    ensures r.Success? ==> |r.value| == n
    ensures r.Success? ==> forall k :: 0 <= k < n ==>
              ParseChAvg(payload[1 + 5 * k..6 + 5 * k]) == Success(r.value[k])
  {
    if n == 0 then Success([])
    else
      var front :- ParseEntries(payload, n - 1);
      var off := 1 + 5 * (n - 1);
      var e :- ParseChAvg(payload[if off <= |payload| then off else |payload|..if off + 5 <= |payload| then off + 5 else |payload|]);
      Success(front + [e])
  }

  /** Decoding a confirm built from well-formed entries returns them. */
  lemma {:induction false} ChAvgsRoundTrip(avgs: seq<ChAvg>)
    requires |avgs| < 0x100
    ensures ParseChAvgs([|avgs|] + ChAvgsBytes(avgs)) == Success(avgs)
  {
    var payload := [|avgs|] + ChAvgsBytes(avgs);
    ChAvgsBytesAt(avgs);
    forall k | 0 <= k < |avgs|
      ensures payload[1 + 5 * k..6 + 5 * k] == ChAvgBytes(avgs[k])
    {
      assert payload[1 + 5 * k..6 + 5 * k] == ChAvgsBytes(avgs)[5 * k..5 * k + 5];
    }
    EntriesRoundTrip(payload, avgs, |avgs|);
    assert avgs[..|avgs|] == avgs;
  }

  function ChAvgsBytes(avgs: seq<ChAvg>): (r: seq<u8>)
    ensures |r| == 5 * |avgs|
  {
    if |avgs| == 0 then [] else ChAvgsBytes(avgs[..|avgs| - 1]) + ChAvgBytes(avgs[|avgs| - 1])
  }

  lemma {:induction false} ChAvgsBytesAt(avgs: seq<ChAvg>)
    ensures forall k :: 0 <= k < |avgs| ==> ChAvgsBytes(avgs)[5 * k..5 * k + 5] == ChAvgBytes(avgs[k])
  {
    if |avgs| > 0 {
      var front := avgs[..|avgs| - 1];
      ChAvgsBytesAt(front);
      var a := ChAvgsBytes(front);
      var last := ChAvgBytes(avgs[|avgs| - 1]);
      assert ChAvgsBytes(avgs) == a + last;
      forall k | 0 <= k < |avgs| ensures (a + last)[5 * k..5 * k + 5] == ChAvgBytes(avgs[k]) {
        var o := 5 * k;
        if k < |avgs| - 1 {
          SliceOfLeft(a, last, o, o + 5);
          assert front[k] == avgs[k];
        } else {
          SliceOfRight(a, last, o, o + 5);
        }
      }
    }
  }

  lemma {:induction false} EntriesRoundTrip(payload: seq<u8>, avgs: seq<ChAvg>, n: nat)
    requires n <= |avgs| && |payload| == 1 + 5 * |avgs|
    requires forall k :: 0 <= k < |avgs| ==> payload[1 + 5 * k..6 + 5 * k] == ChAvgBytes(avgs[k])
    ensures ParseEntries(payload, n) == Success(avgs[..n])
  {
    if n > 0 {
      EntriesRoundTrip(payload, avgs, n - 1);
      assert avgs[..n] == avgs[..n - 1] + [avgs[n - 1]];
    }
  }

  /** The 12-byte packet header the host expects: word 0 holds seq (bits
      16-31), smplFmt (12-15), numSmpl (6-11) and numCh (0-5); word 1 is
      startIdx, word 2 chBitmap. */
  datatype PktHdr = PktHdr(seqNo: nat, smplFmt: Option<nat>, numSmpl: nat, numCh: nat,
                           startIdx: nat, chBitmap: nat, smplSize: nat)

  /** PwrMonPktHdr(data): any length other than 12 gives an all-zero header
      whose smplFmt attribute is never set. */
  function ParsePktHdr(data: seq<u8>): (h: PktHdr)
    ensures |data| != 12 ==> h == PktHdr(0, None, 0, 0, 0, 0, 0)
    ensures |data| == 12 ==> h.smplSize == 4 && h.numCh < 64 && h.numSmpl < 64 && h.smplFmt.Some?
                             && h.smplFmt.value < 16 && h.seqNo < 0x1_0000
  {
    if |data| == 12 then
      var w0 := Field(data, 0, 4);
      PktHdr((w0 / 0x1_0000) % 0x1_0000, Some((w0 / 0x1000) % 0x10), (w0 / 0x40) % 0x40, w0 % 0x40,
             Field(data, 4, 4), Field(data, 8, 4), 4)
    else PktHdr(0, None, 0, 0, 0, 0, 0)
  }

  /** The header bytes a sender following the host's layout would produce. */
  function PktHdrBytes(seqNo: u16, smplFmt: nat, numSmpl: nat, numCh: nat, startIdx: u32, chBitmap: u32): (r: seq<u8>)
    requires smplFmt < 16 && numSmpl < 64 && numCh < 64
    ensures |r| == 12
  {
    U32(seqNo * 0x1_0000 + smplFmt * 0x1000 + numSmpl * 0x40 + numCh) + U32(startIdx) + U32(chBitmap)
  }

  /** The parser recovers every field the layout carries. */
  lemma PktHdrRoundTrip(seqNo: u16, smplFmt: nat, numSmpl: nat, numCh: nat, startIdx: u32, chBitmap: u32)
    requires smplFmt < 16 && numSmpl < 64 && numCh < 64
    ensures ParsePktHdr(PktHdrBytes(seqNo, smplFmt, numSmpl, numCh, startIdx, chBitmap))
            == PktHdr(seqNo, Some(smplFmt), numSmpl, numCh, startIdx, chBitmap, 4)
  {
    var w0 := seqNo * 0x1_0000 + smplFmt * 0x1000 + numSmpl * 0x40 + numCh;
    var b := PktHdrBytes(seqNo, smplFmt, numSmpl, numCh, startIdx, chBitmap);
    assert b == U32(w0) + U32(startIdx) + U32(chBitmap);
    assert b[0..4] == U32(w0);
    assert b[4..8] == U32(startIdx);
    assert b[8..12] == U32(chBitmap);
    Word0Fields(seqNo, smplFmt, numSmpl, numCh);
  }

  /** The bit fields of word 0 come back out of the packed word. */
  lemma Word0Fields(seqNo: u16, smplFmt: nat, numSmpl: nat, numCh: nat)
    requires smplFmt < 16 && numSmpl < 64 && numCh < 64
    ensures var w0 := seqNo * 0x1_0000 + smplFmt * 0x1000 + numSmpl * 0x40 + numCh;
            (w0 / 0x1_0000) % 0x1_0000 == seqNo && (w0 / 0x1000) % 0x10 == smplFmt
            && (w0 / 0x40) % 0x40 == numSmpl && w0 % 0x40 == numCh
  {
    var w0 := seqNo * 0x1_0000 + smplFmt * 0x1000 + numSmpl * 0x40 + numCh;
    var m := numSmpl * 0x40 + numCh;
    DivMul(seqNo, smplFmt * 0x1000 + m, 0x1_0000);
    DivMul(seqNo * 0x10 + smplFmt, m, 0x1000);
    DivMul(seqNo * 0x400 + smplFmt * 0x40 + numSmpl, numCh, 0x40);
    DivMul(seqNo, smplFmt, 0x10);
    DivMul(seqNo * 0x40 + smplFmt, numSmpl, 0x40);
    DivMul(0, seqNo, 0x1_0000);
  }

  /** A parsed data indication: the header and, when any sample bytes were
      present, a numSmpl x numCh grid of (int16, int16) cells. */
  datatype DataInd = DataInd(hdr: PktHdr, grid: Option<seq<seq<(i16, i16)>>>)

  /** The int16 pair at cell index c of the sample area. */
  function Cell(d: seq<u8>, c: nat): (i16, i16)
    requires 4 * c + 4 <= |d|
  {
    (I16At(d, 4 * c), I16At(d, 4 * c + 2))
  }

  /** Row-major index of cell (s, c) in rows of n cells. */
  function CellIndex(s: nat, n: nat, c: nat): nat {
    s * n + c
  }

  /** The little-endian int16 at byte off (struct format "<h"). */
  function I16At(d: seq<u8>, off: nat): i16
    requires off + 2 <= |d|
  {
    Pow256Values();
    I16Of(Field(d, off, 2))
  }

  /** The header of a data indication payload, from its first 12 bytes. */
  function HdrOf(payload: seq<u8>): PktHdr {
    ParsePktHdr(payload[..if |payload| < 12 then |payload| else 12])
  }

  /** dataLen = smplSize * numCh * numSmpl. */
  function DataLen(h: PktHdr): nat {
    h.smplSize * h.numCh * h.numSmpl
  }

  /** payload[12:12+dataLen], a Python slice: cut short by the end of the
      payload, empty when the payload ends before byte 12. */
  function Samples(payload: seq<u8>, dataLen: nat): (r: seq<u8>)
    ensures |r| <= dataLen
    ensures |payload| >= 12 + dataLen ==> r == payload[12..12 + dataLen]
    ensures |payload| <= 12 ==> r == []
  {
    var lo := if |payload| < 12 then |payload| else 12;
    var hi := if 12 + dataLen <= |payload| then 12 + dataLen else |payload|;
    payload[lo..hi]
  }

  /** EventHandlerPwrMonDataInd(data=...): the message header, then the
      packet header from payload[0:12] and the sample slice. An empty slice
      gives no grid; a slice shorter than dataLen makes numpy raise
      TypeError (the buffer is too small for the array); otherwise the grid
      has numSmpl rows of numCh cells. */
  function ParseDataInd(msg: seq<u8>): (r: Result<DataInd, P.Error>)
    ensures |msg| < 6 ==> r.Failure?
    ensures |msg| >= 6 ==>
              var h := HdrOf(msg[6..]);
              var smp := Samples(msg[6..], DataLen(h));
              (r.Success? <==> |smp| == 0 || |smp| == DataLen(h))
              && (r.Success? ==> r.value.hdr == h && (r.value.grid.None? <==> |smp| == 0))
              && (r.Failure? ==> r.error == P.TypeError)
    ensures r.Success? && r.value.grid.Some? ==>
              var h := r.value.hdr;
              |r.value.grid.value| == h.numSmpl
              && (forall s :: 0 <= s < h.numSmpl ==> |r.value.grid.value[s]| == h.numCh)
              && |msg| >= 6 + 12 + 4 * h.numCh * h.numSmpl
  {
    var m :- ParseMsg(msg);
    var payload := m.payload;
    var hdr := HdrOf(payload);
    var dataLen := DataLen(hdr);
    CellCount(hdr.smplSize, hdr.numCh, hdr.numSmpl);
    var samples := Samples(payload, dataLen);
    if |samples| == 0 then Success(DataInd(hdr, None))
    else if |samples| < dataLen then Failure(P.TypeError)
    else
      assert hdr.smplSize == 4 && |samples| == 4 * (hdr.numSmpl * hdr.numCh);
      Success(DataInd(hdr, Some(Grid(samples, hdr.numSmpl, hdr.numCh))))
  }

  /** numpy's C-order view of the sample bytes as numSmpl rows of numCh
      int16 pairs. */
  function Grid(samples: seq<u8>, numSmpl: nat, numCh: nat): (r: seq<seq<(i16, i16)>>)
    requires |samples| == 4 * (numSmpl * numCh)
    ensures |r| == numSmpl && forall s :: 0 <= s < numSmpl ==> |r[s]| == numCh
    ensures forall s, c :: 0 <= s < numSmpl && 0 <= c < numCh ==> r[s][c] == GridCell(samples, numSmpl, numCh, s, c)
  {
    seq(numSmpl, s requires 0 <= s < numSmpl =>
      seq(numCh, c requires 0 <= c < numCh => GridCell(samples, numSmpl, numCh, s, c)))
  }

  /** Cell (s, c) of a parsed grid is the int16 pair at byte
      18 + 4 * (s * numCh + c) of the message: after the 6-byte message
      header and the 12-byte packet header, row after row. */
  lemma DataIndCell(msg: seq<u8>, d: DataInd, s: nat, c: nat)
    requires ParseDataInd(msg) == Success(d) && d.grid.Some?
    requires s < d.hdr.numSmpl && c < d.hdr.numCh
    ensures var off := 18 + 4 * CellIndex(s, d.hdr.numCh, c);
            off + 4 <= |msg| && s < |d.grid.value| && c < |d.grid.value[s]|
            && d.grid.value[s][c] == (I16At(msg, off), I16At(msg, off + 2))
  {
    var h := d.hdr;
    var smp := Samples(msg[6..], DataLen(h));
    var k := CellIndex(s, h.numCh, c);
    GridCellIsCell(msg, d, s, c);
    FieldShift(msg, smp, 4 * k);
    FieldShift(msg, smp, 4 * k + 2);
  }

  /** The grid cell (s, c) is cell s * numCh + c of the sample slice, which
      is the message from byte 18 on. */
  lemma GridCellIsCell(msg: seq<u8>, d: DataInd, s: nat, c: nat)
    requires ParseDataInd(msg) == Success(d) && d.grid.Some?
    requires s < d.hdr.numSmpl && c < d.hdr.numCh
    ensures var smp := Samples(msg[6..], DataLen(d.hdr));
            var k := CellIndex(s, d.hdr.numCh, c);
            4 * k + 4 <= |smp| && 18 + |smp| <= |msg| && smp == msg[18..18 + |smp|]
            && s < |d.grid.value| && c < |d.grid.value[s]| && d.grid.value[s][c] == Cell(smp, k)
  {
    var h := d.hdr;
    GridIsCells(msg, d);
    CellIndexBound(h.numSmpl, h.numCh, s, c);
    SampleBytes(msg[6..], DataLen(h), 0, DataLen(h));
    SubSlice(msg, 6, |msg|, 12, 12 + DataLen(h));
  }

  /** A field of a slice starting at byte 18 is the field 18 bytes further
      into the whole. */
  lemma FieldShift(msg: seq<u8>, smp: seq<u8>, o: nat)
    requires 18 + |smp| <= |msg| && smp == msg[18..18 + |smp|] && o + 2 <= |smp|
    ensures I16At(smp, o) == I16At(msg, 18 + o)
  {
    SubSlice(msg, 18, 18 + |smp|, o, o + 2);
  }

  /** A parsed grid is the view of the full-length sample slice, which
      starts after the 12-byte packet header. */
  lemma GridIsCells(msg: seq<u8>, d: DataInd)
    requires ParseDataInd(msg) == Success(d) && d.grid.Some?
    ensures var smp := Samples(msg[6..], DataLen(d.hdr));
            |msg| >= 6 && |smp| == DataLen(d.hdr) == 4 * (d.hdr.numSmpl * d.hdr.numCh)
            && |msg[6..]| >= 12 + DataLen(d.hdr)
            && d.grid.value == Grid(smp, d.hdr.numSmpl, d.hdr.numCh)
  {
    var h := d.hdr;
    CellCount(h.smplSize, h.numCh, h.numSmpl);
    assert h.smplSize == 4;
  }

  /** Bytes i .. j of a full-length sample slice are payload bytes
      12 + i .. 12 + j. */
  lemma SampleBytes(payload: seq<u8>, dataLen: nat, i: nat, j: nat)
    requires |payload| >= 12 + dataLen && i <= j <= dataLen
    ensures Samples(payload, dataLen)[i..j] == payload[12 + i..12 + j]
  {
    var smp := Samples(payload, dataLen);
    assert smp == payload[12..12 + dataLen];
    assert forall t :: 0 <= t < j - i ==> smp[i..j][t] == payload[12 + i + t];
  }

  /** The bytes of one cell: two little-endian int16 values. */
  function CellBytes(x: (i16, i16)): (r: seq<u8>)
    ensures |r| == 4
  {
    U16(U16Of(x.0)) + U16(U16Of(x.1))
  }

  /** The bytes of a grid, row after row, cell after cell. */
  function GridBytes(g: seq<seq<(i16, i16)>>): (r: seq<u8>)
  {
    if |g| == 0 then [] else GridBytes(g[..|g| - 1]) + RowBytes(g[|g| - 1])
  }

  function RowBytes(row: seq<(i16, i16)>): (r: seq<u8>)
    ensures |r| == 4 * |row|
  {
    if |row| == 0 then [] else RowBytes(row[..|row| - 1]) + CellBytes(row[|row| - 1])
  }

  lemma {:induction false} RowBytesAt(row: seq<(i16, i16)>, c: nat)
    requires c < |row|
    ensures RowBytes(row)[4 * c..4 * c + 4] == CellBytes(row[c])
  {
    var front := row[..|row| - 1];
    if c < |row| - 1 {
      RowBytesAt(front, c);
      assert RowBytes(row)[4 * c..4 * c + 4] == RowBytes(front)[4 * c..4 * c + 4];
    }
  }

  /** A grid of rows of n cells puts cell (s, c) at byte 4 * (s * n + c). */
  lemma {:induction false} GridBytesAt(g: seq<seq<(i16, i16)>>, n: nat, s: nat, c: nat)
    requires forall t :: 0 <= t < |g| ==> |g[t]| == n
    requires s < |g| && c < n
    ensures |GridBytes(g)| == 4 * (|g| * n)
    ensures 4 * (s * n + c) + 4 <= |GridBytes(g)|
    ensures GridBytes(g)[4 * (s * n + c)..4 * (s * n + c) + 4] == CellBytes(g[s][c])
    decreases |g|, 1
  {
    GridBytesLength(g, n);
    CellIndexBound(|g|, n, s, c);
    if s < |g| - 1 {
      GridBytesAtFront(g, n, s, c);
    } else {
      GridBytesAtLast(g, n, c);
    }
  }

  lemma {:induction false} GridBytesAtFront(g: seq<seq<(i16, i16)>>, n: nat, s: nat, c: nat)
    requires forall t :: 0 <= t < |g| ==> |g[t]| == n
    requires s < |g| - 1 && c < n
    requires 4 * (s * n + c) + 4 <= |GridBytes(g)|
    ensures GridBytes(g)[4 * (s * n + c)..4 * (s * n + c) + 4] == CellBytes(g[s][c])
    decreases |g|, 0
  {
    var front := g[..|g| - 1];
    var k := 4 * (s * n + c);
    GridBytesAt(front, n, s, c);
    assert GridBytes(g) == GridBytes(front) + RowBytes(g[|g| - 1]);
    SliceOfLeft(GridBytes(front), RowBytes(g[|g| - 1]), k, k + 4);
  }

  lemma GridBytesAtLast(g: seq<seq<(i16, i16)>>, n: nat, c: nat)
    requires forall t :: 0 <= t < |g| ==> |g[t]| == n
    requires |g| > 0 && c < n
    requires 4 * ((|g| - 1) * n + c) + 4 <= |GridBytes(g)|
    ensures GridBytes(g)[4 * ((|g| - 1) * n + c)..4 * ((|g| - 1) * n + c) + 4] == CellBytes(g[|g| - 1][c])
  {
    var front := g[..|g| - 1];
    var last := g[|g| - 1];
    var m := (|g| - 1) * n;
    GridBytesLength(front, n);
    RowBytesAt(last, c);
    assert GridBytes(g) == GridBytes(front) + RowBytes(last);
    assert |GridBytes(front)| == 4 * m;
    SliceOfRight(GridBytes(front), RowBytes(last), 4 * (m + c), 4 * (m + c) + 4);
  }

  lemma SliceOfLeft(a: seq<u8>, b: seq<u8>, i: nat, j: nat)
    requires i <= j <= |a|
    ensures (a + b)[i..j] == a[i..j]
  {
  }

  lemma SliceOfRight(a: seq<u8>, b: seq<u8>, i: nat, j: nat)
    requires |a| <= i <= j <= |a| + |b|
    ensures (a + b)[i..j] == b[i - |a|..j - |a|]
  {
  }

  lemma {:induction false} GridBytesLength(g: seq<seq<(i16, i16)>>, n: nat)
    requires forall t :: 0 <= t < |g| ==> |g[t]| == n
    ensures |GridBytes(g)| == 4 * (|g| * n)
  {
    if |g| > 0 {
      var m := |g| - 1;
      var front := g[..m];
      assert forall t :: 0 <= t < m ==> |front[t]| == n by {
        forall t | 0 <= t < m ensures |front[t]| == n {
          assert front[t] == g[t];
        }
      }
      GridBytesLength(front, n);
      assert GridBytes(g) == GridBytes(front) + RowBytes(g[m]);
      MulSucc(m, n);
    }
  }

  lemma MulSucc(m: nat, n: nat)
    ensures (m + 1) * n == m * n + n
  {
  }

  /** A sender following the host's layout: message header, the 12-byte
      packet header, then the grid row by row. Parsing its bytes gives the
      header fields and every cell back. */
  lemma DataIndRoundTrip(mh: MsgHdr, seqNo: u16, smplFmt: nat, numSmpl: nat, numCh: nat,
                         startIdx: u32, chBitmap: u32, g: seq<seq<(i16, i16)>>)
    requires smplFmt < 16 && 0 < numSmpl < 64 && 0 < numCh < 64
    requires |g| == numSmpl && forall s :: 0 <= s < |g| ==> |g[s]| == numCh
    ensures ParseDataInd(MsgBinary(Msg(mh, PktHdrBytes(seqNo, smplFmt, numSmpl, numCh, startIdx, chBitmap) + GridBytes(g))))
            == Success(DataInd(PktHdr(seqNo, Some(smplFmt), numSmpl, numCh, startIdx, chBitmap, 4), Some(g)))
  {
    var hb := PktHdrBytes(seqNo, smplFmt, numSmpl, numCh, startIdx, chBitmap);
    var gb := GridBytes(g);
    var msg := MsgBinary(Msg(mh, hb + gb));
    var payload := msg[6..];
    assert payload == hb + gb;
    assert payload[..12] == hb;
    PktHdrRoundTrip(seqNo, smplFmt, numSmpl, numCh, startIdx, chBitmap);
    var h := HdrOf(payload);
    assert h == PktHdr(seqNo, Some(smplFmt), numSmpl, numCh, startIdx, chBitmap, 4);
    GridBytesLength(g, numCh);
    CellCount(4, numCh, numSmpl);
    MulPositive(numSmpl, numCh);
    assert DataLen(h) == |gb| > 0;
    assert Samples(payload, DataLen(h)) == gb;
    GridOfBytes(g, numSmpl, numCh);
  }

  lemma MulPositive(a: nat, b: nat)
    requires a > 0 && b > 0
    ensures a * b > 0
  {
  }

  /** Viewing a grid's bytes as a grid gives the grid back. */
  lemma GridOfBytes(g: seq<seq<(i16, i16)>>, numSmpl: nat, numCh: nat)
    requires |g| == numSmpl && forall s :: 0 <= s < |g| ==> |g[s]| == numCh
    requires |GridBytes(g)| == 4 * (numSmpl * numCh)
    ensures Grid(GridBytes(g), numSmpl, numCh) == g
  {
    var r := Grid(GridBytes(g), numSmpl, numCh);
    forall s | 0 <= s < numSmpl ensures r[s] == g[s] {
      forall c | 0 <= c < numCh ensures r[s][c] == g[s][c] {
        GridBytesAt(g, numCh, s, c);
        CellAt(GridBytes(g), s * numCh + c, g[s][c]);
      }
    }
  }

  /** Four bytes that encode a cell decode to it. */
  lemma CellAt(d: seq<u8>, k: nat, x: (i16, i16))
    requires 4 * k + 4 <= |d| && d[4 * k..4 * k + 4] == CellBytes(x)
    ensures Cell(d, k) == x
  {
    var o := 4 * k;
    var w := d[o..o + 4];
    assert w == U16(U16Of(x.0)) + U16(U16Of(x.1));
    SubSlice(d, o, o + 4, 0, 2);
    SubSlice(d, o, o + 4, 2, 4);
  }

  lemma SubSlice(d: seq<u8>, i: nat, j: nat, a: nat, b: nat)
    requires i <= j <= |d| && a <= b <= j - i
    ensures d[i..j][a..b] == d[i + a..i + b]
  {
    assert forall t :: 0 <= t < b - a ==> d[i..j][a..b][t] == d[i + a + t];
  }

  lemma CellCount(size: nat, numCh: nat, numSmpl: nat)
    ensures size * numCh * numSmpl == size * (numSmpl * numCh)
  {
  }

  function GridCell(samples: seq<u8>, numSmpl: nat, numCh: nat, s: nat, c: nat): (i16, i16)
    requires s < numSmpl && c < numCh && |samples| == 4 * (numSmpl * numCh)
  {
    CellIndexBound(numSmpl, numCh, s, c);
    Cell(samples, s * numCh + c)
  }

  lemma CellIndexBound(numSmpl: nat, numCh: nat, s: nat, c: nat)
    requires s < numSmpl && c < numCh
    ensures 4 * (s * numCh + c) + 4 <= 4 * (numSmpl * numCh)
  {
    assert s * numCh + numCh == (s + 1) * numCh;
    MulMonotone(s + 1, numSmpl, numCh);
  }

  lemma MulMonotone(a: nat, b: nat, c: nat)
    requires a <= b
    ensures a * c <= b * c
  {
  }

  /** Host-built confirms as written put PYTHON in the id and PWRMON in the
      header: the id names PYTHON as the sender. */
  function StatusCnfAsWritten(num: MsgNum, status: u8): (r: Result<Msg, P.Error>)
    ensures r.Success? && r.value.hdr.msgId / 256 == PYTHON && r.value.hdr.eh == PWRMON
  {
    BuildKindMsg(Cnf, PYTHON, PWRMON, num, [status])
  }

  /** EventHandlerPwrMonStopCnf() as written uses message number STOP_REQ. */
  function StopCnfAsWritten(status: u8): (r: Msg)
  {
    StatusCnfAsWritten(STOP_REQ, status).value
  }

  /** The stop confirm it builds carries STOP_REQ's number, not STOP_CNF's. */
  lemma StopCnfAsWrittenHasReqNumber(status: u8)
    ensures StopCnfAsWritten(status).hdr.msgId % 128 == STOP_REQ
    ensures StopCnfAsWritten(status).hdr.msgId % 128 != STOP_CNF
  {
  }

  /** The evidently intended stop confirm, numbered STOP_CNF like the other
      confirms are numbered by their own *_CNF constant. */
  function StopCnf(status: u8): (r: Msg)
    ensures r.hdr.msgId % 128 == STOP_CNF && (r.hdr.msgId / 128) % 2 == CNF_IND
    ensures r.payload == [status]
  {
    StatusCnfAsWritten(STOP_CNF, status).value
  }
}
