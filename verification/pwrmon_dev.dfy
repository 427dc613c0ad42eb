/** The power-monitor device layer (dev_PwrMon.c): the bus transactions
    that read and write an INA register over I2C or SSI, the register
    pointer cache that lets a repeated I2C read skip the address byte, the
    one-time bus initialisation, the per-channel mode configuration and the
    calibration short.

    A transaction is the part of bsp_I2c_MasterTrans_t / bsp_Ssi_MasterTrans_t
    the driver fills in: its type, the bytes it writes (the first wLen bytes
    of the context's write buffer), the number of bytes it reads and whether
    they are stored in reverse order. Queueing it is the effect; the bus
    itself is not part of this model. */
module PwrMonDev {
  import opened Bytes
  import opened Bits
  import opened Wrappers

  /** DEV_PWRMON_REG_INVALID: a register id no device has. */
  const REG_INVALID: u8 := 0xF0

  const INA239_CMD_WRITE: u8 := 0x00
  const INA239_CMD_READ: u8 := 0x01

  const MASK_SHUNT: u8 := 0x01
  const MASK_BUS: u8 := 0x02

  /** Size of the context's write buffer. */
  const WBUF_SIZE: nat := 6

  /** dev_PwrMon_DeviceType_t, in the order of the API table. */
  datatype DevType = Ina226 | Ina228 | Ina239

  /** Only the INA239 sits on an SSI bus. */
  predicate IsSsi(t: DevType) {
    t == Ina239
  }

  datatype Kind = Write | Read | WriteRead

  datatype Trans = Trans(kind: Kind, wBuf: seq<u8>, rLen: nat, rReverse: bool)

  /** dev_PwrMon_DeviceCtx_t: the write buffer, the register the device's
      pointer was last set to (as far as the driver knows), whether a
      transaction is in flight and whether the caller gave a callback. */
  datatype Ctx = Ctx(wBuffer: seq<u8>, prevRegId: u8, active: bool, hasCallback: bool)

  predicate ValidCtx(c: Ctx) {
    |c.wBuffer| == WBUF_SIZE
  }

  // ---------------------------------------------------------------------
  // Register transactions

  /** DEV_PWRMON_INA239_CMD_HDR: the register address in bits 2-7 and the
      command in bits 0-1. */
  function CmdHdr(addr: u8, cmd: u8): (h: u8)
    ensures h / 4 == addr % 64 && h % 4 == cmd % 4
  {
    (addr % 64) * 4 + cmd % 4
  }

  /** dev_PwrMon_i2cRegWrite: register id then the value high byte first;
      the device's pointer now designates the register. */
  function I2cRegWrite(c: Ctx, regId: u8, value: u16): (r: (Ctx, Trans))
    requires ValidCtx(c)
    ensures ValidCtx(r.0) && r.0.prevRegId == regId && r.0.active
    ensures r.1 == Trans(Write, [regId, value / 256, value % 256], 0, false)
  {
    var w := c.wBuffer[0 := regId][1 := value / 256][2 := value % 256];
    (c.(wBuffer := w, prevRegId := regId, active := true), Trans(Write, w[..3], 0, false))
  }

  /** dev_PwrMon_i2cRegRead: a read of the register the pointer already
      designates is a plain read; any other read first writes the register
      id. Either way the pointer then designates the register. */
  function I2cRegRead(c: Ctx, regId: u8, regLen: u8): (r: (Ctx, Trans))
    requires ValidCtx(c)
    ensures ValidCtx(r.0) && r.0.prevRegId == regId && r.0.active
    ensures r.1.rLen == regLen && r.1.rReverse
    ensures r.1.kind == WriteRead <==> regId != c.prevRegId
    ensures r.1.kind == Read <==> regId == c.prevRegId
    ensures r.1.wBuf == if regId != c.prevRegId then [regId] else []
  {
    if regId != c.prevRegId then
      var w := c.wBuffer[0 := regId];
      (c.(wBuffer := w, prevRegId := regId, active := true), Trans(WriteRead, w[..1], regLen, true))
    else
      (c.(prevRegId := regId, active := true), Trans(Read, [], regLen, true))
  }

  /** dev_PwrMon_ssiRegWrite: command header then the value high byte
      first. The SSI path keeps no pointer cache. */
  function SsiRegWrite(c: Ctx, regId: u8, value: u16): (r: (Ctx, Trans))
    requires ValidCtx(c)
    ensures ValidCtx(r.0) && r.0.prevRegId == c.prevRegId && r.0.active
    ensures r.1 == Trans(Write, [CmdHdr(regId, INA239_CMD_WRITE), value / 256, value % 256], 0, false)
  {
    var w := c.wBuffer[0 := CmdHdr(regId, INA239_CMD_WRITE)][1 := value / 256][2 := value % 256];
    (c.(wBuffer := w, active := true), Trans(Write, w[..3], 0, false))
  }

  /** dev_PwrMon_ssiRegRead: the read header followed by zero bytes, one
      byte clocked out per byte read plus the header. The buffer holds six
      bytes, so a register is at most five. */
  function SsiRegRead(c: Ctx, regId: u8, regLen: u8): (r: (Ctx, Trans))
    requires ValidCtx(c) && regLen < WBUF_SIZE
    ensures ValidCtx(r.0) && r.0.prevRegId == c.prevRegId && r.0.active
    ensures r.1.kind == WriteRead && |r.1.wBuf| == regLen + 1 && r.1.rLen == regLen && r.1.rReverse
    ensures r.1.wBuf[0] == CmdHdr(regId, INA239_CMD_READ)
    ensures forall i :: 1 <= i < |r.1.wBuf| && i < 4 ==> r.1.wBuf[i] == 0
  {
    var w := c.wBuffer[0 := CmdHdr(regId, INA239_CMD_READ)][1 := 0][2 := 0][3 := 0];
    (c.(wBuffer := w, active := true), Trans(WriteRead, w[..regLen + 1], regLen, true))
  }

  /** dev_PwrMon_commonRead: records the callback and picks the bus. */
  function CommonRead(t: DevType, c: Ctx, regId: u8, regLen: u8, callback: bool): (r: (Ctx, Trans))
    requires ValidCtx(c) && (IsSsi(t) ==> regLen < WBUF_SIZE)
    ensures ValidCtx(r.0) && r.0.hasCallback == callback && r.0.active
    ensures r.1.rLen == regLen && r.1.rReverse
    ensures IsSsi(t) ==>
              && r.0.prevRegId == c.prevRegId && r.1.kind == WriteRead
              && |r.1.wBuf| == regLen + 1 && r.1.wBuf[0] == CmdHdr(regId, INA239_CMD_READ)
    ensures !IsSsi(t) ==>
              && r.0.prevRegId == regId
              && (r.1.kind == WriteRead <==> regId != c.prevRegId)
              && (r.1.kind == Read <==> regId == c.prevRegId)
              && r.1.wBuf == (if regId != c.prevRegId then [regId] else [])
  {
    var c1 := c.(hasCallback := callback);
    if IsSsi(t) then SsiRegRead(c1, regId, regLen) else I2cRegRead(c1, regId, regLen)
  }

  /** dev_PwrMon_commonWrite. */
  function CommonWrite(t: DevType, c: Ctx, regId: u8, value: u16, callback: bool): (r: (Ctx, Trans))
    requires ValidCtx(c)
    ensures ValidCtx(r.0) && r.0.hasCallback == callback && r.0.active
    ensures r.1.kind == Write && r.1.rLen == 0
    ensures IsSsi(t) ==>
              && r.0.prevRegId == c.prevRegId
              && r.1.wBuf == [CmdHdr(regId, INA239_CMD_WRITE), value / 256, value % 256]
    ensures !IsSsi(t) ==> r.0.prevRegId == regId && r.1.wBuf == [regId, value / 256, value % 256]
  {
    var c1 := c.(hasCallback := callback);
    if IsSsi(t) then SsiRegWrite(c1, regId, value) else I2cRegWrite(c1, regId, value)
  }

  /** The transaction-complete callback: the device is idle again, and the
      caller's callback runs if it gave one. */
  function TransDone(c: Ctx): (r: (Ctx, bool))
    ensures !r.0.active && r.1 == c.hasCallback
    ensures r.0.(active := c.active) == c
  {
    (c.(active := false), c.hasCallback)
  }

  // ---------------------------------------------------------------------
  // The pointer cache

  /** The register an INA device reads next: a transaction that writes
      bytes sets the device's register pointer to the first of them; a
      plain read leaves it. None is a pointer the driver cannot know. */
  function PointerAfter(p: Option<u8>, t: Trans): Option<u8> {
    if t.wBuf != [] then Some(t.wBuf[0]) else p
  }

  function Pointer(p: Option<u8>, ts: seq<Trans>): Option<u8>
    decreases |ts|
  {
    if ts == [] then p else Pointer(PointerAfter(p, ts[0]), ts[1..])
  }

  datatype RegOp = ReadOp(regId: u8, regLen: u8) | WriteOp(regId: u8, value: u16)

  /** One register access over I2C. */
  function I2cOp(c: Ctx, op: RegOp): (r: (Ctx, Trans))
    requires ValidCtx(c)
    ensures ValidCtx(r.0) && r.0.prevRegId == op.regId
  {
    match op
    case ReadOp(regId, regLen) => I2cRegRead(c, regId, regLen)
    case WriteOp(regId, value) => I2cRegWrite(c, regId, value)
  }

  /** A sequence of register accesses over I2C, and the transactions they
      queue. */
  function RunI2c(c: Ctx, ops: seq<RegOp>): (r: (Ctx, seq<Trans>))
    requires ValidCtx(c)
    ensures ValidCtx(r.0) && |r.1| == |ops|
    decreases |ops|
  {
    if ops == [] then (c, [])
    else
      var (c1, t) := I2cOp(c, ops[0]);
      var (c2, ts) := RunI2c(c1, ops[1..]);
      (c2, [t] + ts)
  }

  /** The cache agrees with the device: either the driver does not claim
      to know the pointer, or the pointer is what it claims. */
  predicate Synced(c: Ctx, p: Option<u8>) {
    c.prevRegId == REG_INVALID || p == Some(c.prevRegId)
  }

  /** One access keeps the cache in step with the device, and reaches the
      register it names. */
  lemma I2cOpHits(c: Ctx, op: RegOp, p: Option<u8>)
    requires ValidCtx(c) && Synced(c, p) && op.regId != REG_INVALID
    ensures var (c1, t) := I2cOp(c, op);
            PointerAfter(p, t) == Some(op.regId) && Synced(c1, PointerAfter(p, t))
  {
  }

  /** Starting from a cache in step with the device, and never naming the
      invalid id, every access of an I2C sequence reaches its register: the
      skipped address byte of a repeated read is never a wrong guess. */
  lemma {:induction false} EveryAccessHitsItsRegister(c: Ctx, ops: seq<RegOp>, p: Option<u8>)
    requires ValidCtx(c) && Synced(c, p)
    requires forall k :: 0 <= k < |ops| ==> ops[k].regId != REG_INVALID
    ensures var ts := RunI2c(c, ops).1;
            forall k :: 0 <= k < |ops| ==> Pointer(p, ts[..k + 1]) == Some(ops[k].regId)
    decreases |ops|
  {
    if ops != [] {
      var (c1, t) := I2cOp(c, ops[0]);
      var ts := RunI2c(c, ops).1;
      var rest := RunI2c(c1, ops[1..]).1;
      I2cOpHits(c, ops[0], p);
      var p1 := PointerAfter(p, t);
      EveryAccessHitsItsRegister(c1, ops[1..], p1);
      assert ts == [t] + rest;
      forall k | 0 <= k < |ops|
        ensures Pointer(p, ts[..k + 1]) == Some(ops[k].regId)
      {
        if k == 0 {
          assert ts[..1] == [t];
          assert Pointer(p, ts[..1]) == Pointer(p1, []);
        } else {
          assert ts[..k + 1][1..] == rest[..k];
          assert ops[1..][k - 1] == ops[k];
        }
      }
    }
  }

  /** Two reads of one register in a row: the second writes no address. */
  lemma RepeatedReadSkipsAddress(c: Ctx, regId: u8, regLen: u8)
    requires ValidCtx(c)
    ensures var c1 := I2cRegRead(c, regId, regLen).0;
            I2cRegRead(c1, regId, regLen).1 == Trans(Read, [], regLen, true)
  {
  }

  // ---------------------------------------------------------------------
  // Initialisation

  /** The parts of dev_PwrMon_DeviceInfo_t the layer uses: the device type,
      the I2C or SSI bus number and the device's mode. */
  datatype DeviceInfo = DeviceInfo(devType: DevType, busId: nat, mode: u8)

  /** dev_PwrMon_ChannelInfo_t: the devices measuring shunt and bus
      voltage, and the GPIO driving the calibration short. */
  datatype ChannelInfo = ChannelInfo(vShunt: nat, vBus: nat, calPort: nat, calMask: u8)

  datatype Effect =
    | EnableI2c(bus: nat)
    | EnableSsi(bus: nat)
    | CsOutput(dev: nat)
    | CsDeselect(dev: nat)
    | DevInit(dev: nat)
    | Configure(dev: nat, mask: u8)
    | CalOutput(port: nat, mask: u8)
    | GpioWrite(port: nat, mask: u8, value: u8)

  /** The bus masks are uint16_t indexed by bus number, and every channel
      names devices of the table. */
  predicate ValidPlatform(devs: seq<DeviceInfo>, chans: seq<ChannelInfo>) {
    (forall i :: 0 <= i < |devs| ==> devs[i].busId < 16) &&
    (forall k :: 0 <= k < |chans| ==> chans[k].vShunt < |devs| && chans[k].vBus < |devs|)
  }

  /** A fresh context: no register known, no callback. */
  function InitCtx(): (c: Ctx)
    ensures ValidCtx(c) && c.prevRegId == REG_INVALID && !c.hasCallback && Synced(c, None)
  {
    Ctx(seq(WBUF_SIZE, _ => 0), REG_INVALID, false, false)
  }

  /** The enable effect for bus b of the given kind. */
  function Enable(ssi: bool, b: nat): Effect {
    if ssi then EnableSsi(b) else EnableI2c(b)
  }

  /** What dev_PwrMon_init does for device k, given the masks of the buses
      already enabled: enable its bus unless already done, set up the chip
      select of an SSI device, and call the device's own init. */
  function DeviceEffects(d: DeviceInfo, k: nat, i2cMask: nat, ssiMask: nat): (r: seq<Effect>)
  {
    var ssi := IsSsi(d.devType);
    var m := if ssi then ssiMask else i2cMask;
    (if Bit(m, d.busId) then [] else [Enable(ssi, d.busId)]) +
    (if ssi then [CsOutput(k), CsDeselect(k), DevInit(k)] else [DevInit(k)])
  }

  /** The mask of buses of one kind after device d. */
  function NextMask(d: DeviceInfo, ssi: bool, m: nat): nat {
    if IsSsi(d.devType) == ssi then SetBit(m, d.busId) else m
  }

  /** The device loop of dev_PwrMon_init from device k on. */
  function InitDevices(devs: seq<DeviceInfo>, k: nat, i2cMask: nat, ssiMask: nat): (r: seq<Effect>)
    requires k <= |devs|
    decreases |devs| - k
  {
    if k == |devs| then []
    else
      var d := devs[k];
      DeviceEffects(d, k, i2cMask, ssiMask) +
      InitDevices(devs, k + 1, NextMask(d, false, i2cMask), NextMask(d, true, ssiMask))
  }

  /** Some device in lo .. hi-1 sits on bus b of the given kind. */
  predicate Uses(devs: seq<DeviceInfo>, lo: nat, hi: nat, ssi: bool, b: nat)
    requires lo <= hi <= |devs|
  {
    exists i :: lo <= i < hi && IsSsi(devs[i].devType) == ssi && devs[i].busId == b
  }

  /** A device enables at most its own bus, first, and only when its bit is
      clear. */
  lemma DeviceEnables(d: DeviceInfo, k: nat, i2cMask: nat, ssiMask: nat, ssi: bool, b: nat)
    ensures var r := DeviceEffects(d, k, i2cMask, ssiMask);
            var m := if ssi then ssiMask else i2cMask;
            (Enable(ssi, b) in r <==> IsSsi(d.devType) == ssi && d.busId == b && !Bit(m, b)) &&
            (forall i :: 0 < i < |r| ==> !r[i].EnableI2c? && !r[i].EnableSsi?) &&
            (|r| > 0 && (r[0].EnableI2c? || r[0].EnableSsi?) ==> r[0] == Enable(IsSsi(d.devType), d.busId))
  {
  }

  /** The mask after device d holds its bus and what it held before. */
  lemma MaskStep(d: DeviceInfo, ssi: bool, m: nat, b: nat)
    ensures Bit(NextMask(d, ssi, m), b) <==> Bit(m, b) || (IsSsi(d.devType) == ssi && d.busId == b)
  {
    if IsSsi(d.devType) == ssi {
      BitOfSetBit(m, d.busId, b);
    }
  }

  function MaskOf(ssi: bool, i2cMask: nat, ssiMask: nat): nat {
    if ssi then ssiMask else i2cMask
  }

  /** From device k on, a bus is enabled exactly when a later device uses
      it and its bit was not already set. */
  lemma {:induction false} InitDevicesEnables(devs: seq<DeviceInfo>, k: nat, i2cMask: nat, ssiMask: nat, ssi: bool, b: nat)
    requires k <= |devs|
    ensures Enable(ssi, b) in InitDevices(devs, k, i2cMask, ssiMask) <==>
            !Bit(MaskOf(ssi, i2cMask, ssiMask), b) && Uses(devs, k, |devs|, ssi, b)
    decreases |devs| - k
  {
    if k < |devs| {
      var d := devs[k];
      var m1 := NextMask(d, false, i2cMask);
      var m2 := NextMask(d, true, ssiMask);
      InitDevicesEnables(devs, k + 1, m1, m2, ssi, b);
      DeviceEnables(d, k, i2cMask, ssiMask, ssi, b);
      MaskStep(d, ssi, MaskOf(ssi, i2cMask, ssiMask), b);
      assert MaskOf(ssi, m1, m2) == NextMask(d, ssi, MaskOf(ssi, i2cMask, ssiMask));
      UsesSplit(devs, k, ssi, b);
    }
  }

  lemma UsesSplit(devs: seq<DeviceInfo>, k: nat, ssi: bool, b: nat)
    requires k < |devs|
    ensures Uses(devs, k, |devs|, ssi, b) <==>
            (IsSsi(devs[k].devType) == ssi && devs[k].busId == b) || Uses(devs, k + 1, |devs|, ssi, b)
  {
    if Uses(devs, k, |devs|, ssi, b) {
      var i :| k <= i < |devs| && IsSsi(devs[i].devType) == ssi && devs[i].busId == b;
      if i > k {
        assert Uses(devs, k + 1, |devs|, ssi, b);
      }
    }
    if Uses(devs, k + 1, |devs|, ssi, b) {
      var i :| k + 1 <= i < |devs| && IsSsi(devs[i].devType) == ssi && devs[i].busId == b;
      assert Uses(devs, k, |devs|, ssi, b);
    }
  }

  /** No enable effect repeats. */
  predicate EnablesOnce(r: seq<Effect>) {
    forall i, j :: 0 <= i < j < |r| && (r[i].EnableI2c? || r[i].EnableSsi?) ==> r[j] != r[i]
  }

  /** No bus is enabled twice from device k on. */
  lemma {:induction false} InitDevicesOnce(devs: seq<DeviceInfo>, k: nat, i2cMask: nat, ssiMask: nat)
    requires k <= |devs|
    ensures EnablesOnce(InitDevices(devs, k, i2cMask, ssiMask))
    decreases |devs| - k
  {
    if k < |devs| {
      var d := devs[k];
      var ssi := IsSsi(d.devType);
      var m1 := NextMask(d, false, i2cMask);
      var m2 := NextMask(d, true, ssiMask);
      var head := DeviceEffects(d, k, i2cMask, ssiMask);
      var rest := InitDevices(devs, k + 1, m1, m2);
      InitDevicesOnce(devs, k + 1, m1, m2);
      InitDevicesEnables(devs, k + 1, m1, m2, ssi, d.busId);
      DeviceEnables(d, k, i2cMask, ssiMask, ssi, d.busId);
      MaskStep(d, ssi, MaskOf(ssi, i2cMask, ssiMask), d.busId);
      assert MaskOf(ssi, m1, m2) == NextMask(d, ssi, MaskOf(ssi, i2cMask, ssiMask));
      AppendOnce(head, rest);
    }
  }

  /** Two effect lists each enabling at most once, the first enabling only
      at its head something the second never enables, enable at most once
      together. */
  lemma AppendOnce(a: seq<Effect>, b: seq<Effect>)
    requires EnablesOnce(b)
    requires forall i :: 0 < i < |a| ==> !a[i].EnableI2c? && !a[i].EnableSsi?
    requires |a| > 0 && (a[0].EnableI2c? || a[0].EnableSsi?) ==> a[0] !in b
    ensures EnablesOnce(a + b)
  {
    var e := a + b;
    forall i, j | 0 <= i < j < |e| && (e[i].EnableI2c? || e[i].EnableSsi?)
      ensures e[j] != e[i]
    {
      if i < |a| {
        assert i == 0;
        if j >= |a| {
          assert e[j] == b[j - |a|];
        }
      } else {
        assert e[i] == b[i - |a|] && e[j] == b[j - |a|];
      }
    }
  }

  /** The configuration dev_PwrMon_init gives channel k: a shunt device in
      BOTH mode measures both voltages; otherwise the shunt device measures
      the shunt and the bus device the bus. */
  function ChannelConfig(devs: seq<DeviceInfo>, ch: ChannelInfo, both: u8): (r: seq<Effect>)
    requires ch.vShunt < |devs| && ch.vBus < |devs|
  {
    if devs[ch.vShunt].mode == both then [Configure(ch.vShunt, both)]
    else [Configure(ch.vShunt, MASK_SHUNT), Configure(ch.vBus, MASK_BUS)]
  }

  /** dev_PwrMon_calInit: a channel with a calibration pin drives it high,
      the short open. */
  function CalInit(ch: ChannelInfo): (r: seq<Effect>)
  {
    if ch.calMask != 0 then [CalOutput(ch.calPort, ch.calMask), GpioWrite(ch.calPort, ch.calMask, ch.calMask)] else []
  }

  function ChannelsFrom(devs: seq<DeviceInfo>, chans: seq<ChannelInfo>, k: nat, both: u8): (r: seq<Effect>)
    requires ValidPlatform(devs, chans) && k <= |chans|
    decreases |chans| - k
  {
    if k == |chans| then []
    else ChannelConfig(devs, chans[k], both) + CalInit(chans[k]) + ChannelsFrom(devs, chans, k + 1, both)
  }

  /** dev_PwrMon_init: fresh contexts for every device, then the device
      loop, then the channel loop. `both` is DEV_PWRMON_DEVICE_MODE_MASK_BOTH,
      which no visible header defines. */
  function Init(devs: seq<DeviceInfo>, chans: seq<ChannelInfo>, both: u8): (r: (seq<Ctx>, seq<Effect>))
    requires ValidPlatform(devs, chans)
    ensures |r.0| == |devs| && forall i :: 0 <= i < |devs| ==> r.0[i] == InitCtx()
  {
    (seq(|devs|, _ => InitCtx()), InitDevices(devs, 0, 0, 0) + ChannelsFrom(devs, chans, 0, both))
  }

  /** Every bus a device uses is enabled once, and no other. */
  lemma InitEnablesEachBusOnce(devs: seq<DeviceInfo>, chans: seq<ChannelInfo>, both: u8, ssi: bool, b: nat)
    requires ValidPlatform(devs, chans)
    ensures var e := Init(devs, chans, both).1;
            (Enable(ssi, b) in e <==> Uses(devs, 0, |devs|, ssi, b)) && EnablesOnce(e)
  {
    var a := InitDevices(devs, 0, 0, 0);
    var c := ChannelsFrom(devs, chans, 0, both);
    InitDevicesEnables(devs, 0, 0, 0, ssi, b);
    InitDevicesOnce(devs, 0, 0, 0);
    NoBitsAbove(0, 0, b);
    ChannelsEnableNothing(devs, chans, 0, both);
    var e := a + c;
    forall i, j | 0 <= i < j < |e| && (e[i].EnableI2c? || e[i].EnableSsi?)
      ensures e[j] != e[i]
    {
      assert i < |a|;
      if j >= |a| {
        assert e[j] == c[j - |a|];
      }
    }
  }

  lemma {:induction false} ChannelsEnableNothing(devs: seq<DeviceInfo>, chans: seq<ChannelInfo>, k: nat, both: u8)
    requires ValidPlatform(devs, chans) && k <= |chans|
    ensures forall e :: e in ChannelsFrom(devs, chans, k, both) ==> !e.EnableI2c? && !e.EnableSsi?
    decreases |chans| - k
  {
    if k < |chans| {
      ChannelsEnableNothing(devs, chans, k + 1, both);
      ChannelHead(devs, chans[k], both, 0, 0);
    }
  }

  /** What one channel contributes: the modes it asks for, and no bus
      enable. */
  lemma ChannelHead(devs: seq<DeviceInfo>, ch: ChannelInfo, both: u8, d: nat, m: u8)
    requires ch.vShunt < |devs| && ch.vBus < |devs|
    ensures var h := ChannelConfig(devs, ch, both) + CalInit(ch);
            (Configure(d, m) in h <==> Asks(devs, ch, both, d, m)) &&
            forall e :: e in h ==> !e.EnableI2c? && !e.EnableSsi?
  {
  }

  /** The channel loop configures exactly what the channel map asks: a
      device gets a mode exactly when some channel names it, as its shunt
      device with BOTH or SHUNT, or as its bus device with BUS when the
      channel's shunt device is not in BOTH mode. */
  lemma {:induction false} ChannelsConfigure(devs: seq<DeviceInfo>, chans: seq<ChannelInfo>, k: nat, both: u8, d: nat, m: u8)
    requires ValidPlatform(devs, chans) && k <= |chans|
    ensures Configure(d, m) in ChannelsFrom(devs, chans, k, both) <==>
            exists j :: k <= j < |chans| && Asks(devs, chans[j], both, d, m)
    decreases |chans| - k
  {
    if k < |chans| {
      ChannelsConfigure(devs, chans, k + 1, both, d, m);
      var h := ChannelConfig(devs, chans[k], both) + CalInit(chans[k]);
      var t := ChannelsFrom(devs, chans, k + 1, both);
      assert ChannelsFrom(devs, chans, k, both) == h + t;
      assert Configure(d, m) in h + t <==> Configure(d, m) in h || Configure(d, m) in t;
      ChannelHead(devs, chans[k], both, d, m);
      AsksSplit(devs, chans, k, both, d, m);
    }
  }

  lemma AsksSplit(devs: seq<DeviceInfo>, chans: seq<ChannelInfo>, k: nat, both: u8, d: nat, m: u8)
    requires ValidPlatform(devs, chans) && k < |chans|
    ensures (exists j :: k <= j < |chans| && Asks(devs, chans[j], both, d, m)) <==>
            Asks(devs, chans[k], both, d, m) || exists j :: k + 1 <= j < |chans| && Asks(devs, chans[j], both, d, m)
  {
    if exists j :: k <= j < |chans| && Asks(devs, chans[j], both, d, m) {
      var j :| k <= j < |chans| && Asks(devs, chans[j], both, d, m);
      if j > k {
        assert exists j :: k + 1 <= j < |chans| && Asks(devs, chans[j], both, d, m);
      }
    }
  }

  /** Channel ch asks for device d to be put in mode m. */
  predicate Asks(devs: seq<DeviceInfo>, ch: ChannelInfo, both: u8, d: nat, m: u8)
    requires ch.vShunt < |devs| && ch.vBus < |devs|
  {
    if devs[ch.vShunt].mode == both then d == ch.vShunt && m == both
    else (d == ch.vShunt && m == MASK_SHUNT) || (d == ch.vBus && m == MASK_BUS)
  }

  // ---------------------------------------------------------------------
  // Calibration short

  /** dev_PwrMon_calEnable: drives the pin low, closing the short; a
      channel without a pin is left alone. */
  function CalEnable(ch: ChannelInfo): (r: seq<Effect>)
    ensures r == [] <==> ch.calMask == 0
  {
    if ch.calMask != 0 then [GpioWrite(ch.calPort, ch.calMask, 0)] else []
  }

  /** dev_PwrMon_calDisable: drives the pin high again. */
  function CalDisable(ch: ChannelInfo): (r: seq<Effect>)
    ensures r == [] <==> ch.calMask == 0
  {
    if ch.calMask != 0 then [GpioWrite(ch.calPort, ch.calMask, ch.calMask)] else []
  }

  /** The level the last write to a channel's calibration pin left. */
  function PinLevel(es: seq<Effect>, port: nat, mask: u8, level: u8): u8
    decreases |es|
  {
    if es == [] then level
    else
      var e := es[|es| - 1];
      if e.GpioWrite? && e.port == port && e.mask == mask then e.value
      else PinLevel(es[..|es| - 1], port, mask, level)
  }

  /** The short is closed exactly between calEnable and calDisable:
      calInit leaves the pin high, calEnable pulls it low, and calDisable
      restores the level calInit set. */
  lemma CalShortCycle(ch: ChannelInfo, level: u8)
    requires ch.calMask != 0
    ensures PinLevel(CalInit(ch), ch.calPort, ch.calMask, level) == ch.calMask
    ensures PinLevel(CalInit(ch) + CalEnable(ch), ch.calPort, ch.calMask, level) == 0
    ensures PinLevel(CalInit(ch) + CalEnable(ch) + CalDisable(ch), ch.calPort, ch.calMask, level) ==
            PinLevel(CalInit(ch), ch.calPort, ch.calMask, level)
  {
  }
}
