/** The non-volatile settings (svc_Nvm.c with the TivaBspSensor layout of
    svc_Nvm_TivaBspSensor.h): one record of 32-bit words in EEPROM, a
    header {crc, signature, type, version, len} followed by the channel
    count and one pair of calibration offsets per power-monitor channel.
    The CRC covers every word but the first, which holds it. The EEPROM
    contents and the hardware CRC are parameters; the channel count of
    the platform is `n`. */
module Nvm {
  import opened Bytes
  import opened Wrappers

  const SIGNATURE: u32 := 0x616c_7545
  const DATA_TYPE: u16 := 0x1111
  const FORMAT_V1: u16 := 1
  const HDR_WORDS: nat := 4

  /** sizeof(svc_Nvm_DataV1_t) for n channels. */
  function V1Size(n: nat): nat { 4 + 4 * n }

  /** SVC_NVM_DATA_SIZE32 and SVC_NVM_DATA_SIZE: the record size in words,
      and in bytes rounded up to a multiple of four. */
  function Size32(n: nat): (w: nat)
    ensures w * 4 >= 4 * HDR_WORDS + V1Size(n) > w * 4 - 4
  {
    (4 * HDR_WORDS + V1Size(n) + 3) / 4
  }

  /** svc_Nvm_ChannelInfo_t. */
  datatype Cal = Cal(vBusOffset: i16, vShuntOffset: i16)

  /** svc_Nvm_Data_t. */
  datatype Data = Data(crc: u32, signature: u32, typ: u16, version: u16, len: u32, numCh: u32, channels: seq<Cal>)

  // ---------------------------------------------------------------------
  // The record as EEPROM words

  /** Two 16-bit fields sharing a little-endian word, the first low. */
  function Halves(lo: u16, hi: u16): (w: u32)
    ensures w % 0x1_0000 == lo && w / 0x1_0000 == hi
  {
    lo + hi * 0x1_0000
  }

  function Encode(d: Data): (ws: seq<u32>)
    ensures |ws| == 5 + |d.channels|
    ensures ws[0] == d.crc && ws[1] == d.signature && ws[3] == d.len && ws[4] == d.numCh
  {
    [d.crc, d.signature, Halves(d.typ, d.version), d.len, d.numCh]
      + seq(|d.channels|, i requires 0 <= i < |d.channels| =>
              Halves(U16Of(d.channels[i].vBusOffset), U16Of(d.channels[i].vShuntOffset)))
  }

  function Decode(ws: seq<u32>): (d: Data)
    requires |ws| >= 5
    ensures |d.channels| == |ws| - 5
    ensures d.crc == ws[0] && d.signature == ws[1] && d.len == ws[3] && d.numCh == ws[4]
  {
    Data(ws[0], ws[1], ws[2] % 0x1_0000, ws[2] / 0x1_0000, ws[3], ws[4],
         seq(|ws| - 5, i requires 0 <= i < |ws| - 5 =>
               Cal(I16Of(ws[5 + i] % 0x1_0000), I16Of(ws[5 + i] / 0x1_0000))))
  }

  lemma DecodeEncode(d: Data)
    ensures Decode(Encode(d)) == d
  {
    var d2 := Decode(Encode(d));
    assert d2.channels == d.channels;
  }

  lemma EncodeDecode(ws: seq<u32>)
    requires |ws| >= 5
    ensures Encode(Decode(ws)) == ws
  {
    var e := Encode(Decode(ws));
    forall i | 5 <= i < |ws|
      ensures e[i] == ws[i]
    {
      assert U16Of(I16Of(ws[i] % 0x1_0000)) == ws[i] % 0x1_0000;
      assert U16Of(I16Of(ws[i] / 0x1_0000)) == ws[i] / 0x1_0000;
    }
  }

  // ---------------------------------------------------------------------
  // The product layer

  /** svc_Nvm_validData: the header names this record format for n channels
      (numCh is not checked). */
  predicate ValidData(d: Data, n: nat) {
    d.signature == SIGNATURE && d.typ == DATA_TYPE && d.version == FORMAT_V1 && d.len == V1Size(n)
  }

  /** svc_Nvm_setHdr: exactly the four header fields validData checks. */
  function SetHdr(d: Data, n: nat): (r: Data)
    requires V1Size(n) < 0x1_0000_0000
    ensures ValidData(r, n)
    ensures r.crc == d.crc && r.numCh == d.numCh && r.channels == d.channels
  {
    d.(signature := SIGNATURE, typ := DATA_TYPE, version := FORMAT_V1, len := V1Size(n))
  }

  /** svc_Nvm_initData: the V1 body zeroed and numCh set to n. */
  function InitData(d: Data, n: nat): (r: Data)
    requires n < 0x1_0000_0000
    ensures r.numCh == n && |r.channels| == n
    ensures forall i :: 0 <= i < n ==> r.channels[i] == Cal(0, 0)
    ensures r.(numCh := d.numCh, channels := d.channels) == d
  {
    d.(numCh := n, channels := seq(n, _ => Cal(0, 0)))
  }

  /** svc_Nvm_updateCalData: the C code asserts chIdx < numCh; the array
      holds the platform's channels. */
  function UpdateCalData(d: Data, chIdx: nat, vBus: i16, vShunt: i16): (r: Data)
    requires chIdx < d.numCh && chIdx < |d.channels|
    ensures |r.channels| == |d.channels| && r.channels[chIdx] == Cal(vBus, vShunt)
    ensures forall i :: 0 <= i < |d.channels| && i != chIdx ==> r.channels[i] == d.channels[i]
    ensures r.(channels := d.channels) == d
  {
    d.(channels := d.channels[chIdx := Cal(vBus, vShunt)])
  }

  function BusOffset(d: Data, chIdx: nat): (r: i16)
    requires chIdx < d.numCh && chIdx < |d.channels|
    ensures r == d.channels[chIdx].vBusOffset
  {
    d.channels[chIdx].vBusOffset
  }

  function ShuntOffset(d: Data, chIdx: nat): (r: i16)
    requires chIdx < d.numCh && chIdx < |d.channels|
    ensures r == d.channels[chIdx].vShuntOffset
  {
    d.channels[chIdx].vShuntOffset
  }

  /** The getters return the last offsets written for that channel, and an
      update of one channel leaves the others' offsets as they were. */
  lemma GetAfterUpdate(d: Data, chIdx: nat, vBus: i16, vShunt: i16, other: nat)
    requires chIdx < d.numCh && chIdx < |d.channels|
    requires other < d.numCh && other < |d.channels| && other != chIdx
    ensures var r := UpdateCalData(d, chIdx, vBus, vShunt);
            && BusOffset(r, chIdx) == vBus && ShuntOffset(r, chIdx) == vShunt
            && BusOffset(r, other) == BusOffset(d, other) && ShuntOffset(r, other) == ShuntOffset(d, other)
  {
  }

  // ---------------------------------------------------------------------
  // svc_Nvm

  /** The CRC of a record's words: the hardware CRC-32 of all but the first. */
  function CrcOf(ws: seq<u32>, crc32: seq<u32> -> u32): u32
    requires |ws| >= 1
  {
    crc32(ws[1..])
  }

  /** svc_Nvm_save: the header is rewritten, the CRC recomputed over the
      rest, and the whole record written back; returns the new record and
      the words written. */
  function Save(d: Data, n: nat, crc32: seq<u32> -> u32): (r: (Data, seq<u32>))
    requires V1Size(n) < 0x1_0000_0000
    ensures ValidData(r.0, n) && r.1 == Encode(r.0)
    ensures r.0.crc == CrcOf(r.1, crc32)
    ensures r.0.numCh == d.numCh && r.0.channels == d.channels
  {
    var h := SetHdr(d, n);
    var c := crc32(Encode(h)[1..]);
    var s := h.(crc := c);
    assert Encode(s)[1..] == Encode(h)[1..];
    (s, Encode(s))
  }

  /** svc_Nvm_save as written: the length passed to bsp_Eeprom_write is
      SVC_NVM_DATA_SIZE, the record's size in bytes, where the function
      takes a count of words and programs four bytes per word. So four
      times the record is programmed: the record's own words, then the
      3 * Size32(n) words that follow svc_Nvm_data in RAM (ramAfter). */
  function SaveAsWritten(d: Data, n: nat, crc32: seq<u32> -> u32, ramAfter: seq<u32>): (r: (Data, seq<u32>))
    requires V1Size(n) < 0x1_0000_0000
    requires |d.channels| == n && |ramAfter| == 3 * Size32(n)
    ensures |r.1| == 4 * Size32(n)
    ensures r.1[..Size32(n)] == Encode(r.0) && r.1[Size32(n)..] == ramAfter
    ensures ValidData(r.0, n) && r.0.crc == CrcOf(r.1[..Size32(n)], crc32)
  {
    var (s, ws) := Save(d, n, crc32);
    assert (ws + ramAfter)[..Size32(n)] == ws;
    (s, ws + ramAfter)
  }

  /** As written, every save programs words beyond the record: for a record
      of Size32(n) words, 3 * Size32(n) more words of RAM are copied into
      the EEPROM after it. The corrected save programs the record alone,
      and the two agree on the record's words. */
  lemma SaveAsWrittenProgramsPastRecord(d: Data, n: nat, crc32: seq<u32> -> u32, ramAfter: seq<u32>)
    requires V1Size(n) < 0x1_0000_0000
    requires |d.channels| == n && |ramAfter| == 3 * Size32(n)
    ensures var (s, ws) := SaveAsWritten(d, n, crc32, ramAfter);
            && |ws| > |Save(d, n, crc32).1| == Size32(n)
            && ws[..Size32(n)] == Save(d, n, crc32).1
            && s == Save(d, n, crc32).0
  {
  }

  /** svc_Nvm_init: the stored record is kept when its CRC matches and its
      header is valid; otherwise it is replaced by a fresh header and
      zeroed body, which is saved. Returns the record in RAM and the words
      written, if any. */
  function Init(stored: seq<u32>, n: nat, crc32: seq<u32> -> u32): (r: (Data, Option<seq<u32>>))
    requires |stored| == Size32(n) && n < 0x1000_0000
    ensures var ok := stored[0] == CrcOf(stored, crc32) && ValidData(Decode(stored), n);
            && (ok <==> r.1.None?)
            && (ok ==> r.0 == Decode(stored))
            && (!ok ==> && r.1 == Some(Encode(r.0)) && r.0.crc == CrcOf(r.1.value, crc32)
                        && r.0.numCh == n && r.0.channels == seq(n, _ => Cal(0, 0)))
    ensures ValidData(r.0, n)
  {
    var d := Decode(stored);
    if stored[0] == CrcOf(stored, crc32) && ValidData(d, n) then (d, None)
    else
      var (s, ws) := Save(InitData(SetHdr(d, n), n), n, crc32);
      (s, Some(ws))
  }

  /** What save writes, init accepts unchanged. */
  lemma SaveThenInit(d: Data, n: nat, crc32: seq<u32> -> u32)
    requires |d.channels| == n && n < 0x1000_0000
    ensures var (s, ws) := Save(d, n, crc32);
            |ws| == Size32(n) && Init(ws, n, crc32) == (s, None)
  {
    var (s, ws) := Save(d, n, crc32);
    DecodeEncode(s);
  }

  /** Any EEPROM contents give a valid record after init, and a second
      boot keeps it. */
  lemma InitIsStable(stored: seq<u32>, n: nat, crc32: seq<u32> -> u32)
    requires |stored| == Size32(n) && n < 0x1000_0000
    ensures var (d, w) := Init(stored, n, crc32);
            ValidData(d, n) && Init(Encode(d), n, crc32) == (d, None)
  {
    var (d, w) := Init(stored, n, crc32);
    DecodeEncode(d);
    if w.None? {
      EncodeDecode(stored);
    }
  }

  /** A single corrupted word is caught when it breaks the CRC: the record
      is then reinitialised, whatever the header says. */
  lemma CrcMismatchReinitialises(stored: seq<u32>, n: nat, crc32: seq<u32> -> u32)
    requires |stored| == Size32(n) && n < 0x1000_0000
    requires stored[0] != crc32(stored[1..])
    ensures var (d, w) := Init(stored, n, crc32);
            w.Some? && forall i :: 0 <= i < n ==> d.channels[i] == Cal(0, 0)
  {
  }
}
