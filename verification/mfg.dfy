/** The manufacturing record (bsp_Mfg.c). The last eight bytes of flash are
    a header {usrLen, bspLen, rsv, fmt, signature}; when it is valid the
    board record (rand0, rand1, productId, serialNum, hwRevision, packed
    little-endian) ends where the header starts, and the product's own
    data ends where the board record starts. Otherwise an all-zero record
    is used. Flash is a byte string whose length is the flash size. */
module Mfg {
  import opened Bytes
  import opened Wrappers

  const SIGNATURE: u32 := 0x616c_7545
  const HDR_SIZE: nat := 8
  /** sizeof(bsp_Mfg_Data_t), packed. */
  const DATA_SIZE: nat := 24

  /** bsp_Mfg_Data_t. */
  datatype Data = Data(rand0: u64, rand1: u64, productId: u32, serialNum: u16, hwRevision: u16)

  const DEFAULT: Data := Data(0, 0, 0, 0, 0)

  /** bsp_Mfg_SectionHdr_t, read from the last eight bytes of flash. */
  datatype Hdr = Hdr(usrLen: u8, bspLen: u8, rsv: u8, fmt: u8, signature: u32)

  function HdrAt(flash: seq<u8>): (h: Hdr)
    requires |flash| >= HDR_SIZE
    ensures var o := |flash| - HDR_SIZE;
            && h.usrLen == flash[o] && h.bspLen == flash[o + 1] && h.fmt == flash[o + 3]
            && h.signature == FromLE(flash[o + 4..o + 8])
  {
    var o := |flash| - HDR_SIZE;
    Pow256Values();
    Hdr(flash[o], flash[o + 1], flash[o + 2], flash[o + 3], FromLE(flash[o + 4..o + 8]))
  }

  predicate Accepted(h: Hdr) {
    h.signature == SIGNATURE && h.fmt == 1 && h.bspLen == DATA_SIZE
  }

  /** The outcome of bsp_Mfg_init: where the board record is (None for the
      built-in default) and the user-data address (0 for NULL), computed
      in 32-bit address arithmetic. */
  datatype Mfg = Mfg(data: Option<nat>, usrData: u32)

  /** bsp_Mfg_init. The flash holds at least a header and a record. */
  function Init(flash: seq<u8>): (m: Mfg)
    requires |flash| >= HDR_SIZE + DATA_SIZE && |flash| < 0x1_0000_0000
    ensures var h := HdrAt(flash);
            var hdr := |flash| - HDR_SIZE;
            && (Accepted(h) <==> m.data.Some?)
            && (m.data.Some? ==> m.data.value + DATA_SIZE == hdr
                                 && m.usrData == (hdr - DATA_SIZE - h.usrLen) % 0x1_0000_0000)
            && (m.data.None? ==> m.usrData == 0)
  {
    var h := HdrAt(flash);
    var hdr := |flash| - HDR_SIZE;
    if Accepted(h) then Mfg(Some(hdr - h.bspLen), (hdr - (h.bspLen + h.usrLen)) % 0x1_0000_0000)
    else Mfg(None, 0)
  }

  /** The record bsp_Mfg_dataPtr points at. */
  function Record(flash: seq<u8>, m: Mfg): (d: Data)
    requires m.data.Some? ==> m.data.value + DATA_SIZE <= |flash|
    ensures m.data.None? ==> d == DEFAULT
    ensures m.data.Some? ==> var p := m.data.value;
              && d.productId == FromLE(flash[p + 16..p + 20])
              && d.serialNum == FromLE(flash[p + 20..p + 22])
              && d.hwRevision == FromLE(flash[p + 22..p + 24])
              && d.rand0 == FromLE(flash[p..p + 8]) && d.rand1 == FromLE(flash[p + 8..p + 16])
  {
    Pow256Values();
    match m.data
    case None => DEFAULT
    case Some(p) =>
      Data(FromLE(flash[p..p + 8]), FromLE(flash[p + 8..p + 16]), FromLE(flash[p + 16..p + 20]),
           FromLE(flash[p + 20..p + 22]), FromLE(flash[p + 22..p + 24]))
  }

  /** bsp_Mfg_getProductId and the other getters read the selected record. */
  function ProductId(flash: seq<u8>): (r: u32)
    requires |flash| >= HDR_SIZE + DATA_SIZE && |flash| < 0x1_0000_0000
    ensures !Accepted(HdrAt(flash)) ==> r == 0
  {
    Record(flash, Init(flash)).productId
  }

  function SerialNumber(flash: seq<u8>): (r: u16)
    requires |flash| >= HDR_SIZE + DATA_SIZE && |flash| < 0x1_0000_0000
    ensures !Accepted(HdrAt(flash)) ==> r == 0
  {
    Record(flash, Init(flash)).serialNum
  }

  function HwRevision(flash: seq<u8>): (r: u16)
    requires |flash| >= HDR_SIZE + DATA_SIZE && |flash| < 0x1_0000_0000
    ensures !Accepted(HdrAt(flash)) ==> r == 0
  {
    Record(flash, Init(flash)).hwRevision
  }

  // ---------------------------------------------------------------------
  // Programming a record

  /** The bytes a programmer writes for a record. */
  function DataBytes(d: Data): (r: seq<u8>)
    ensures |r| == DATA_SIZE
    ensures r[..8] == U64(d.rand0) && r[8..16] == U64(d.rand1) && r[16..20] == U32(d.productId)
    ensures r[20..22] == U16(d.serialNum) && r[22..24] == U16(d.hwRevision)
  {
    var r := U64(d.rand0) + U64(d.rand1) + U32(d.productId) + U16(d.serialNum) + U16(d.hwRevision);
    assert r[..8] == U64(d.rand0);
    assert r[8..16] == U64(d.rand1);
    assert r[16..20] == U32(d.productId);
    assert r[20..22] == U16(d.serialNum);
    assert r[22..24] == U16(d.hwRevision);
    r
  }

  /** A stretch of a stretch of flash. */
  lemma SubSlice(f: seq<u8>, p: nat, db: seq<u8>, i: nat, j: nat)
    requires p + |db| <= |f| && f[p..p + |db|] == db && i <= j <= |db|
    ensures f[p + i..p + j] == db[i..j]
  {
    forall k | 0 <= k < j - i
      ensures f[p + i..p + j][k] == db[i..j][k]
    {
      assert f[p + i + k] == f[p..p + |db|][i + k];
    }
  }

  function HdrBytes(usrLen: u8): (r: seq<u8>)
    ensures |r| == HDR_SIZE
  {
    [usrLen, DATA_SIZE, 0, 1] + U32(SIGNATURE)
  }

  /** A flash image ending with user data, a record and its header. */
  function Image(code: seq<u8>, usr: seq<u8>, d: Data): (r: seq<u8>)
    requires |usr| < 0x100
    ensures |r| == |code| + |usr| + DATA_SIZE + HDR_SIZE
    ensures var p := |code| + |usr|;
            r[p..p + DATA_SIZE] == DataBytes(d) && r[p + DATA_SIZE..] == HdrBytes(|usr|)
  {
    var r := code + usr + DataBytes(d) + HdrBytes(|usr|);
    assert r[|code| + |usr|..] == DataBytes(d) + HdrBytes(|usr|);
    r
  }

  /** The bytes of a record, wherever they sit in flash, read back as it. */
  lemma RecordReadsBack(f: seq<u8>, p: nat, u: u32, d: Data)
    requires p + DATA_SIZE <= |f| && f[p..p + DATA_SIZE] == DataBytes(d)
    ensures Record(f, Mfg(Some(p), u)) == d
  {
    var db := DataBytes(d);
    SubSlice(f, p, db, 0, 8);
    SubSlice(f, p, db, 8, 16);
    SubSlice(f, p, db, 16, 20);
    SubSlice(f, p, db, 20, 22);
    SubSlice(f, p, db, 22, 24);
  }

  /** A header written at the end of flash is read back as written. */
  lemma HdrReadsBack(f: seq<u8>, usrLen: u8)
    requires |f| >= HDR_SIZE && f[|f| - HDR_SIZE..] == HdrBytes(usrLen)
    ensures HdrAt(f) == Hdr(usrLen, DATA_SIZE, 0, 1, SIGNATURE)
  {
    var o := |f| - HDR_SIZE;
    var hb := HdrBytes(usrLen);
    assert f[o..o + HDR_SIZE] == hb;
    SubSlice(f, o, hb, 4, 8);
    assert hb[4..8] == U32(SIGNATURE);
    assert f[o] == hb[0] && f[o + 1] == hb[1] && f[o + 2] == hb[2] && f[o + 3] == hb[3];
  }

  /** A programmed record is found and read back field for field, and the
      user data pointer is where the user data starts. */
  lemma ImageRoundTrip(code: seq<u8>, usr: seq<u8>, d: Data)
    requires |usr| < 0x100 && |code| + |usr| + DATA_SIZE + HDR_SIZE < 0x1_0000_0000
    ensures var f := Image(code, usr, d);
            && Accepted(HdrAt(f))
            && Init(f) == Mfg(Some(|code| + |usr|), |code|)
            && Record(f, Init(f)) == d
  {
    var f := Image(code, usr, d);
    var p := |code| + |usr|;
    HdrReadsBack(f, |usr|);
    assert Init(f) == Mfg(Some(p), |code|);
    RecordReadsBack(f, p, |code|, d);
  }

  /** Erased flash (all 0xFF) is not a record: the getters return zero. */
  lemma ErasedFlashUsesDefault(n: nat)
    requires HDR_SIZE + DATA_SIZE <= n < 0x1_0000_0000
    ensures var f := seq(n, _ => 0xFF);
            Init(f) == Mfg(None, 0) && ProductId(f) == 0 && SerialNumber(f) == 0 && HwRevision(f) == 0
  {
    var f: seq<u8> := seq(n, _ => 0xFF);
    var o := n - HDR_SIZE;
    assert f[o + 3] == 0xFF;
  }
}
