/** The INA228 power-monitor driver (dev_PwrMon_ina228.c): its register
    table, the little-endian register write, the read that skips the
    address byte when the device's pointer already designates the
    register, and the id reads of its init sequence.

    The transactions are those of PwrMonDev, read in the same way: the
    bytes written, the number of bytes read. The INA228 stores a read in
    order, so no transaction here is reversed. */
module Ina228 {
  import opened Bytes
  import opened Wrappers
  import D = PwrMonDev
  import I2c

  const REG_CONFIG: u8 := 0x00
  const REG_ADC_CONFIG: u8 := 0x01
  const REG_SHUNT_CAL: u8 := 0x02
  const REG_SHUNT_TEMPCO: u8 := 0x03
  const REG_VSHUNT: u8 := 0x04
  const REG_VBUS: u8 := 0x05
  const REG_DIETEMP: u8 := 0x06
  const REG_CURRENT: u8 := 0x07
  const REG_POWER: u8 := 0x08
  const REG_ENERGY: u8 := 0x09
  const REG_CHARGE: u8 := 0x0A
  const REG_DIAG_ALRT: u8 := 0x0B
  const REG_SOVL: u8 := 0x0C
  const REG_SUVL: u8 := 0x0D
  const REG_BOVL: u8 := 0x0E
  const REG_BUVL: u8 := 0x0F
  const REG_TEMP_LIMIT: u8 := 0x10
  const REG_PWR_LIMIT: u8 := 0x11
  const REG_MFGR_ID: u8 := 0x3E
  const REG_DEV_ID: u8 := 0x3F

  /** The prevRegId init stores: no register has this id. */
  const PREV_REG_NONE: u16 := 0xFF

  datatype RegInfo = RegInfo(cmd: u8, len: nat, rdOnly: bool)

  /** dev_PwrMon_regInfo, in register order. */
  const TABLE: seq<RegInfo> := [
    RegInfo(REG_CONFIG, 2, false),
    RegInfo(REG_ADC_CONFIG, 2, false),
    RegInfo(REG_SHUNT_CAL, 2, false),
    RegInfo(REG_SHUNT_TEMPCO, 2, false),
    RegInfo(REG_VSHUNT, 3, true),
    RegInfo(REG_VBUS, 3, true),
    RegInfo(REG_DIETEMP, 2, true),
    RegInfo(REG_CURRENT, 3, true),
    RegInfo(REG_POWER, 3, true),
    RegInfo(REG_ENERGY, 5, true),
    RegInfo(REG_CHARGE, 5, true),
    RegInfo(REG_DIAG_ALRT, 2, false),
    RegInfo(REG_SOVL, 2, false),
    RegInfo(REG_SUVL, 2, false),
    RegInfo(REG_BOVL, 2, false),
    RegInfo(REG_BUVL, 2, false),
    RegInfo(REG_TEMP_LIMIT, 2, false),
    RegInfo(REG_PWR_LIMIT, 2, false),
    RegInfo(REG_MFGR_ID, 2, true),
    RegInfo(REG_DEV_ID, 2, true)
  ]

  /** The registers the chip has. */
  predicate IsReg(regId: u8) {
    regId <= REG_PWR_LIMIT || regId == REG_MFGR_ID || regId == REG_DEV_ID
  }

  /** The width of a register, as the INA228 data sheet gives it: the
      measurement registers are 24-bit, the accumulators 40-bit, the rest
      16-bit. */
  function RegLen(regId: u8): nat {
    if regId in {REG_VSHUNT, REG_VBUS, REG_CURRENT, REG_POWER} then 3
    else if regId in {REG_ENERGY, REG_CHARGE} then 5
    else 2
  }

  /** dev_PwrMon_getRegInfo: ids up to PWR_LIMIT index the table directly;
      the others index it at 0x12 + (regId - 0x3E), computed in int and
      stored in a uint32_t. None is an index outside the table. The ids
      0x2C-0x3D are not registers yet land inside the table, on the entry
      of another register. */
  function GetRegInfo(regId: u8): (r: Option<RegInfo>)
    ensures r.Some? <==> IsReg(regId) || 0x2C <= regId < REG_MFGR_ID
    ensures IsReg(regId) ==> r.Some? && r.value.cmd == regId && r.value.len == RegLen(regId)
    ensures 0x2C <= regId < REG_MFGR_ID ==> r == Some(TABLE[regId - 0x2C]) && r.value.cmd != regId
  {
    var idx := if regId <= REG_PWR_LIMIT then regId as int else (REG_PWR_LIMIT + 1) + (regId - REG_MFGR_ID);
    var u := ToU32(idx);
    assert idx < 0 ==> u == idx + 0x1_0000_0000;
    if u < |TABLE| then Some(TABLE[u]) else None
  }

  /** The table entries are the registers named by their cmd field. */
  lemma GetRegInfoFaithful(regId: u8)
    requires IsReg(regId)
    ensures exists k :: 0 <= k < |TABLE| && TABLE[k].cmd == regId && GetRegInfo(regId) == Some(TABLE[k])
  {
    var k := if regId <= REG_PWR_LIMIT then regId as int else 0x12 + (regId - REG_MFGR_ID);
    assert TABLE[k].cmd == regId;
  }

  /** dev_PwrMon_DeviceCtx_t: the write buffer and the register the
      driver believes the device's pointer designates (a uint16_t). */
  datatype Ctx = Ctx(wBuffer: seq<u8>, prevRegId: u16, hasCallback: bool)

  predicate ValidCtx(c: Ctx) {
    |c.wBuffer| == 3
  }

  /** dev_PwrMon_i2cRegWrite: register id then the value LOW byte first.
      It does not touch prevRegId. */
  function I2cRegWrite(c: Ctx, regId: u8, value: u16): (r: (Ctx, D.Trans))
    requires ValidCtx(c)
    ensures ValidCtx(r.0) && r.0.prevRegId == c.prevRegId
    ensures r.1.kind == D.Write && r.1.rLen == 0 && |r.1.wBuf| == 3
    ensures r.1.wBuf[0] == regId && FromLE(r.1.wBuf[1..]) == value
  {
    var w := c.wBuffer[0 := regId][1 := value % 256][2 := value / 256];
    assert w[1..] == U16(value);
    (c.(wBuffer := w), D.Trans(D.Write, w, 0, false))
  }

  /** dev_PwrMon_i2cRegRead: the register's table length is read; the
      address byte is written first only when the register differs from
      the last one read. Only table registers are read (an id outside the
      table indexes past the end of it). */
  function I2cRegRead(c: Ctx, regId: u8): (r: (Ctx, D.Trans))
    requires ValidCtx(c) && IsReg(regId)
    ensures ValidCtx(r.0) && r.0.prevRegId == regId
    ensures r.1.rLen == RegLen(regId) && !r.1.rReverse
    ensures r.1.kind == D.WriteRead <==> regId as int != c.prevRegId
    ensures r.1.kind == D.Read <==> regId as int == c.prevRegId
    ensures r.1.wBuf == if regId as int != c.prevRegId then [regId] else []
  {
    var len := GetRegInfo(regId).value.len;
    if regId as int != c.prevRegId then
      var w := c.wBuffer[0 := regId];
      (c.(wBuffer := w, prevRegId := regId), D.Trans(D.WriteRead, w[..1], len, false))
    else
      (c.(prevRegId := regId), D.Trans(D.Read, [], len, false))
  }

  /** The field of the device context a read lands in. */
  datatype Dest = DeviceIdField | MfgrIdField

  /** dev_PwrMon_manufacturerId: reads the DEV_ID register into the
      caller's buffer. */
  function ManufacturerId(c: Ctx, dest: Dest, callback: bool): (r: (Ctx, D.Trans, Dest))
    requires ValidCtx(c)
    ensures ValidCtx(r.0) && r.0.hasCallback == callback && r.2 == dest
    ensures r.0.prevRegId == REG_DEV_ID as int && r.1.rLen == 2
  {
    var (c1, t) := I2cRegRead(c.(hasCallback := callback), REG_DEV_ID);
    (c1, t, dest)
  }

  /** dev_PwrMon_deviceId: reads the MFGR_ID register into the caller's
      buffer. */
  function DeviceId(c: Ctx, dest: Dest, callback: bool): (r: (Ctx, D.Trans, Dest))
    requires ValidCtx(c)
    ensures ValidCtx(r.0) && r.0.hasCallback == callback && r.2 == dest
    ensures r.0.prevRegId == REG_MFGR_ID as int && r.1.rLen == 2
  {
    var (c1, t) := I2cRegRead(c.(hasCallback := callback), REG_MFGR_ID);
    (c1, t, dest)
  }

  /** dev_PwrMon_init for one device as evidently intended, each id read
      its own transaction run to completion: the cache is invalidated, the
      bus enabled, then manufacturerId is asked to fill the deviceId field
      and deviceId the mfgrId field. (InitAsWritten below follows the
      code, where the two reads share one record.) */
  function Init(c: Ctx): (r: (Ctx, seq<(D.Trans, Dest)>))
    requires ValidCtx(c)
    ensures ValidCtx(r.0) && |r.1| == 2 && !r.0.hasCallback
  {
    var c0 := c.(prevRegId := PREV_REG_NONE, hasCallback := false);
    var (c1, t1, d1) := ManufacturerId(c0, DeviceIdField, false);
    var (c2, t2, d2) := DeviceId(c1, MfgrIdField, false);
    (c2, [(t1, d1), (t2, d2)])
  }

  /** The two id helpers read each other's register, and init hands each
      the other's field: with one transaction per read the swaps cancel,
      so the deviceId field receives
      DEV_ID and the mfgrId field receives MFGR_ID, each through an
      address write since neither register was the last one read. */
  lemma InitIdsLandInTheirFields(c: Ctx)
    requires ValidCtx(c)
    ensures var ts := Init(c).1;
            && ts[0] == (D.Trans(D.WriteRead, [REG_DEV_ID], 2, false), DeviceIdField)
            && ts[1] == (D.Trans(D.WriteRead, [REG_MFGR_ID], 2, false), MfgrIdField)
    ensures Init(c).0.prevRegId == REG_MFGR_ID as int
  {
  }

  /** A transfer the bus carries for the driver: the bytes written (the
      register byte), and the length and destination of the read that
      follows. */
  datatype Ran = Ran(wBuf: seq<u8>, rLen: nat, dest: Dest)

  /** dev_PwrMon_init for one device on an idle bus, as written. Both id
      helpers fill in the one ctx->i2cTrans record, wBuffer and rPtr, and
      queue the same record, with no wait in between. The first queueing
      finds the queue empty and starts the record at once, putting
      wBuffer[0] (DEV_ID) on the bus. The second call then rewrites the
      record (wBuffer[0] = MFGR_ID, rBuffer = the mfgrId field) before
      the first byte has left, and queues it again, which links the record
      to itself; the completion unlinks it, so no second transfer follows.
      What the bus carries is the first call's register byte with the
      second call's read. */
  function InitAsWritten(c: Ctx, t: I2c.Id): (r: (Ctx, seq<Ran>))
    requires ValidCtx(c)
    ensures ValidCtx(r.0) && !r.0.hasCallback && r.0.prevRegId == REG_MFGR_ID as int
    ensures |r.1| == 1
  {
    var c0 := c.(prevRegId := PREV_REG_NONE, hasCallback := false);
    var (c1, t1, d1) := ManufacturerId(c0, DeviceIdField, false);
    var rec := I2c.Record(I2c.WriteRead, 1, true, 0);
    var a := I2c.EnqueueAsWritten(I2c.EMPTY, t, rec);
    var (c2, t2, d2) := DeviceId(c1, MfgrIdField, false);
    var b := I2c.EnqueueAsWritten(a.q, t, rec);
    I2c.RequeueBeforeCompletionIsDropped(t, rec);
    var after := I2c.Pop(I2c.ClearSelfLink(b.q)).1;
    var first := Ran(t1.wBuf, t2.rLen, d2);
    (c2, if after.Some? then [first, Ran(t2.wBuf, t2.rLen, d2)] else [first])
  }

  /** As written, the DEV_ID register is read into the mfgrId field, the
      deviceId field receives nothing, and the cache is left naming
      MFGR_ID while the device's pointer designates DEV_ID, so it no
      longer agrees with the device. The corrected init, with one
      transaction per read, fills both fields. */
  lemma InitAsWrittenLosesDeviceId(c: Ctx, t: I2c.Id)
    requires ValidCtx(c)
    ensures var (c1, ran) := InitAsWritten(c, t);
            && ran == [Ran([REG_DEV_ID], 2, MfgrIdField)]
            && (forall k :: 0 <= k < |ran| ==> ran[k].dest != DeviceIdField)
            && !Synced(c1, Some(REG_DEV_ID))
    ensures exists k :: 0 <= k < |Init(c).1| && Init(c).1[k].1 == DeviceIdField
  {
    InitIdsLandInTheirFields(c);
    assert Init(c).1[0].1 == DeviceIdField;
  }

  /** Called on its own, manufacturerId reads DEV_ID and deviceId reads
      MFGR_ID. */
  lemma IdHelpersReadSwappedRegisters(c: Ctx, dest: Dest)
    requires ValidCtx(c)
    ensures ManufacturerId(c, dest, false).0.prevRegId == REG_DEV_ID as int
    ensures DeviceId(c, dest, false).0.prevRegId == REG_MFGR_ID as int
  {
  }

  // ---------------------------------------------------------------------
  // The pointer cache

  /** The cache agrees with the device: either it holds the init value, or
      the device pointer designates the register it names. */
  predicate Synced(c: Ctx, p: Option<u8>) {
    c.prevRegId == PREV_REG_NONE || (p.Some? && c.prevRegId == p.value as int)
  }

  /** A read keeps the cache in step with the device and reaches the
      register it names: a read without address byte happens only when the
      pointer already designates the register. */
  lemma ReadHits(c: Ctx, regId: u8, p: Option<u8>)
    requires ValidCtx(c) && IsReg(regId) && Synced(c, p)
    ensures var (c1, t) := I2cRegRead(c, regId);
            D.PointerAfter(p, t) == Some(regId) && Synced(c1, D.PointerAfter(p, t))
  {
  }

  /** A register write moves the device pointer but not the cache: after
      reading CONFIG, writing SHUNT_CAL and reading CONFIG again, the last
      read sends no address and so reads SHUNT_CAL. (dev_PwrMon_i2cRegWrite
      has no caller in this driver.) */
  lemma WriteLeavesCacheStale(c: Ctx)
    requires ValidCtx(c) && c.prevRegId == PREV_REG_NONE
    ensures var (c1, t1) := I2cRegRead(c, REG_CONFIG);
            var (c2, t2) := I2cRegWrite(c1, REG_SHUNT_CAL, 0x1000);
            var (c3, t3) := I2cRegRead(c2, REG_CONFIG);
            && t3.kind == D.Read
            && D.Pointer(None, [t1, t2, t3]) == Some(REG_SHUNT_CAL)
  {
    var (c1, t1) := I2cRegRead(c, REG_CONFIG);
    var (c2, t2) := I2cRegWrite(c1, REG_SHUNT_CAL, 0x1000);
    var (c3, t3) := I2cRegRead(c2, REG_CONFIG);
    assert t1.wBuf == [REG_CONFIG] && t2.wBuf[0] == REG_SHUNT_CAL && t3.wBuf == [];
    assert [t1, t2, t3][1..] == [t2, t3];
    assert D.Pointer(None, [t1, t2, t3]) == D.Pointer(Some(REG_CONFIG), [t2, t3]);
    assert [t2, t3][1..] == [t3];
    assert D.Pointer(Some(REG_CONFIG), [t2, t3]) == D.Pointer(Some(REG_SHUNT_CAL), [t3]);
    assert [t3][1..] == [];
    assert D.Pointer(Some(REG_SHUNT_CAL), [t3]) == D.Pointer(Some(REG_SHUNT_CAL), []);
  }
}
