/** The INA226 power-monitor driver (dev_PwrMon_ina226.c): its register
    table, the configuration word, the mode chosen for a channel, the
    conversion of readings to millivolts and microvolts, the sign extension
    of a raw reading and the transactions of its init sequence. */
module Ina226 {
  import opened Bytes
  import opened Wrappers
  import opened Bits
  import D = PwrMonDev

  const REG_CONFIG: u8 := 0x00
  const REG_VSHUNT: u8 := 0x01
  const REG_VBUS: u8 := 0x02
  const REG_POWER: u8 := 0x03
  const REG_CURRENT: u8 := 0x04
  const REG_CALIBRATION: u8 := 0x05
  const REG_MASK_EN: u8 := 0x06
  const REG_ALERT_LIMIT: u8 := 0x07
  const REG_MFTR_ID: u8 := 0xFE
  const REG_DEV_ID: u8 := 0xFF

  const CONFIG_RESET: u16 := 0x8000

  const OP_MODE_CONT_SHUNT: u8 := 0x05
  const OP_MODE_CONT_BUS: u8 := 0x06
  const OP_MODE_CONT_SHUNT_AND_BUS: u8 := 0x07
  const CONV_TIME_US_332: u8 := 0x02
  const AVG_MODE_SAMPLES_1: u8 := 0x00

  datatype RegInfo = RegInfo(cmd: u8, len: nat, rdOnly: bool)

  /** dev_PwrMon_ina226_regInfo: every register is two bytes. */
  const TABLE: seq<RegInfo> := [
    RegInfo(REG_CONFIG, 2, false),
    RegInfo(REG_VSHUNT, 2, true),
    RegInfo(REG_VBUS, 2, true),
    RegInfo(REG_POWER, 2, true),
    RegInfo(REG_CURRENT, 2, true),
    RegInfo(REG_CALIBRATION, 2, false),
    RegInfo(REG_MASK_EN, 2, false),
    RegInfo(REG_ALERT_LIMIT, 2, false),
    RegInfo(REG_MFTR_ID, 2, true),
    RegInfo(REG_DEV_ID, 2, true)
  ]

  /** The registers the chip has. */
  predicate IsReg(regId: u8) {
    regId <= REG_ALERT_LIMIT || regId == REG_MFTR_ID || regId == REG_DEV_ID
  }

  /** dev_PwrMon_ina226_getRegInfo: ids up to ALERT_LIMIT index the table
      directly, the others index it at 8 + (regId - 0xFE), computed in int
      and stored in a uint32_t; None is an index outside the table. */
  function GetRegInfo(regId: u8): (r: Option<RegInfo>)
    ensures r.Some? ==> r.value.len == 2
  {
    var idx := if regId <= REG_ALERT_LIMIT then regId as int else (REG_ALERT_LIMIT + 1) + (regId - REG_MFTR_ID);
    var u := ToU32(idx);
    if u < |TABLE| then Some(TABLE[u]) else None
  }

  /** The table answers every register of the chip with its own entry; the
      ids 0xF6 .. 0xFD, which the driver never passes, fall back onto the
      entries of registers 0 .. 7, and every other id falls outside. */
  lemma GetRegInfoFaithful(regId: u8)
    ensures IsReg(regId) ==> GetRegInfo(regId) == Some(RegInfo(regId, 2, regId in {REG_VSHUNT, REG_VBUS, REG_POWER, REG_CURRENT, REG_MFTR_ID, REG_DEV_ID}))
    ensures 0xF6 <= regId <= 0xFD ==> GetRegInfo(regId) == Some(TABLE[regId - 0xF6])
    ensures !IsReg(regId) && !(0xF6 <= regId <= 0xFD) ==> GetRegInfo(regId).None?
  {
    if regId > REG_ALERT_LIMIT && regId < 0xF6 {
      assert ToU32(REG_ALERT_LIMIT + 1 + (regId - REG_MFTR_ID)) >= 0x1_0000_0000 - 0xFE;
    }
  }

  // ---------------------------------------------------------------------
  // Configuration word

  /** DEV_PWRMON_REG_CONFIG_BUILD: mode in bits 0-2, shunt conversion time
      in bits 3-5, bus conversion time in bits 6-8, averaging in 9-11. */
  function ConfigBuild(mode: u8, sConv: u8, bConv: u8, avg: u8): (v: u16)
    ensures v < 0x1000
  {
    mode % 8 + (sConv % 8) * 8 + (bConv % 8) * 64 + (avg % 8) * 512
  }

  function ModeField(v: u16): u8 { v % 8 }
  function ShuntConvField(v: u16): u8 { (v / 8) % 8 }
  function BusConvField(v: u16): u8 { (v / 64) % 8 }
  function AvgField(v: u16): u8 { (v / 512) % 8 }

  /** Each field of the word reads back as the three low bits given. */
  lemma ConfigFieldsRoundTrip(mode: u8, sConv: u8, bConv: u8, avg: u8)
    ensures var v := ConfigBuild(mode, sConv, bConv, avg);
            ModeField(v) == mode % 8 && ShuntConvField(v) == sConv % 8 &&
            BusConvField(v) == bConv % 8 && AvgField(v) == avg % 8 && v / 4096 == 0
  {
    var v := ConfigBuild(mode, sConv, bConv, avg);
    var a := mode % 8;
    var b := sConv % 8;
    var c := bConv % 8;
    var d := avg % 8;
    assert v == a + 8 * (b + 8 * (c + 8 * d));
    assert v / 8 == b + 8 * (c + 8 * d);
    assert v / 64 == (v / 8) / 8 == c + 8 * d;
    assert v / 512 == (v / 64) / 8 == d;
  }

  /** The operating mode dev_PwrMon_ina226_config picks for a mode mask:
      continuous shunt and bus when both bits are set, bus alone when only
      the bus bit is, and shunt otherwise, even for an empty mask. */
  function ModeFor(modeMask: u8): (m: u8)
    ensures m == OP_MODE_CONT_SHUNT_AND_BUS <==> modeMask % 2 == 1 && (modeMask / 2) % 2 == 1
    ensures m == OP_MODE_CONT_BUS <==> modeMask % 2 == 0 && (modeMask / 2) % 2 == 1
    ensures m == OP_MODE_CONT_SHUNT <==> (modeMask / 2) % 2 == 0
  {
    if modeMask % 2 == 1 && (modeMask / 2) % 2 == 1 then OP_MODE_CONT_SHUNT_AND_BUS
    else if (modeMask / 2) % 2 == 1 then OP_MODE_CONT_BUS
    else OP_MODE_CONT_SHUNT
  }

  /** dev_PwrMon_ina226_config: one write of the configuration register. */
  function Config(c: D.Ctx, modeMask: u8, callback: bool): (r: (D.Ctx, D.Trans))
    requires D.ValidCtx(c)
  {
    D.CommonWrite(D.Ina226, c, REG_CONFIG, ConfigBuild(ModeFor(modeMask), CONV_TIME_US_332, CONV_TIME_US_332, AVG_MODE_SAMPLES_1), callback)
  }

  /** The configuration write selects the mode for the mask with 332 us
      conversions and no averaging, high byte first. */
  lemma ConfigWritesMode(c: D.Ctx, modeMask: u8, callback: bool)
    requires D.ValidCtx(c)
    ensures var t := Config(c, modeMask, callback).1;
            var v := t.wBuf[1] * 256 + t.wBuf[2];
            t.kind == D.Write && |t.wBuf| == 3 && t.wBuf[0] == REG_CONFIG &&
            ModeField(v) == ModeFor(modeMask) && ShuntConvField(v) == CONV_TIME_US_332 &&
            BusConvField(v) == CONV_TIME_US_332 && AvgField(v) == AVG_MODE_SAMPLES_1
  {
    var t := Config(c, modeMask, callback).1;
    var m := ModeFor(modeMask);
    if m == OP_MODE_CONT_SHUNT {
      assert t.wBuf == [REG_CONFIG, 0, 149];
    } else if m == OP_MODE_CONT_BUS {
      assert t.wBuf == [REG_CONFIG, 0, 150];
    } else {
      assert t.wBuf == [REG_CONFIG, 0, 151];
    }
  }

  /** DEV_PWRMON_REG_ALERT_MASK_CVRF: the conversion-ready flag. */
  function Cvrf(reg: u16): (r: bool)
    ensures r <==> Bit(reg, 3)
  {
    (reg / 8) % 2 == 1
  }

  // ---------------------------------------------------------------------
  // Readings

  /** dev_PwrMon_ina226_format: a reading whose bit 15 is set has bits
      16-31 set too. */
  function Format(val: i32): (r: i32)
    ensures (U32Of(val) / 0x8000) % 2 == 0 ==> r == val
  {
    var p := U32Of(val);
    if (p / 0x8000) % 2 == 1 then I32Of(p % 0x1_0000 + 0xFFFF_0000) else val
  }

  /** A raw 16-bit register reading comes out as its two's-complement
      value, and formatting twice changes nothing. */
  lemma FormatSignExtends(val: i32)
    ensures 0 <= val < 0x1_0000 ==> Format(val) == I16Of(val)
    ensures Format(Format(val)) == Format(val)
  {
    var p := U32Of(val);
    if (p / 0x8000) % 2 == 1 {
      var q: u32 := p % 0x1_0000 + 0xFFFF_0000;
      assert I32Of(q) == q - 0x1_0000_0000;
      assert U32Of(Format(val)) == q;
      assert q % 0x1_0000 == p % 0x1_0000;
      assert (q / 0x8000) % 2 == 1 by {
        var lo: int := p % 0x1_0000;
        assert q as int == 0x8000 * 0x1_FFFE + lo;
        assert q / 0x8000 == 0x1_FFFE + lo / 0x8000;
      }
    }
  }

  /** dev_PwrMon_ina226_vBusConvert: 1.25 mV per bit, computed in int32_t
      as val * 1250 / 1000. */
  function VBusConvert(val: i32): (r: i32)
  {
    ToI32(TruncDiv(ToI32(val * 1250), 1000))
  }

  /** dev_PwrMon_ina226_vShuntConvert: 2.5 uV per bit, as val * 25 / 10. */
  function VShuntConvert(val: i32): (r: i32)
  {
    ToI32(TruncDiv(ToI32(val * 25), 10))
  }

  /** For every sign-extended 16-bit reading the products fit int32_t, and
      the conversions are exact scalings by 5/4 and 5/2, truncated toward
      zero. */
  lemma ConvertScales(val: i32)
    requires -0x8000 <= val < 0x8000
    ensures VBusConvert(val) == TruncDiv(val * 5, 4)
    ensures VShuntConvert(val) == TruncDiv(val * 5, 2)
    ensures val >= 0 ==> 4 * VBusConvert(val) <= 5 * val < 4 * VBusConvert(val) + 4
    ensures val >= 0 ==> 2 * VShuntConvert(val) <= 5 * val < 2 * VShuntConvert(val) + 2
  {
    ScaleDown(val * 5, 250, 4);
    ScaleDown(val * 5, 5, 2);
  }

  /** Dividing k*a by k*d truncates like dividing a by d. */
  lemma ScaleDown(a: int, k: nat, d: nat)
    requires k > 0 && d > 0
    ensures TruncDiv(a * k, d * k) == TruncDiv(a, d)
  {
    var b: nat := if a >= 0 then a else -a;
    DivDiv(b * k, k, d);
    DivMul(b, 0, k);
    assert k * d == d * k;
    assert a * k >= 0 <==> a >= 0;
    assert a < 0 ==> -(a * k) == b * k;
  }

  // ---------------------------------------------------------------------
  // Register access and init

  /** The read functions (manufacturerId, deviceId, vShuntGet, vBusGet,
      powerGet, currentGet, alertMaskGet): one read of the register's
      length through the common layer. */
  function ReadReg(c: D.Ctx, regId: u8, callback: bool): (r: (D.Ctx, D.Trans))
    requires D.ValidCtx(c) && IsReg(regId)
    ensures r.1.rLen == 2 && r.0.prevRegId == regId
  {
    GetRegInfoFaithful(regId);
    D.CommonRead(D.Ina226, c, regId, GetRegInfo(regId).value.len, callback)
  }

  /** configSet, alertMaskSet and calSet: one write through the common layer. */
  function WriteReg(c: D.Ctx, regId: u8, value: u16, callback: bool): (r: (D.Ctx, D.Trans))
    requires D.ValidCtx(c)
    ensures r.0.prevRegId == regId
  {
    D.CommonWrite(D.Ina226, c, regId, value, callback)
  }

  /** dev_PwrMon_ina226_init: read both ids, then reset the device, clear
      the alert mask and the calibration register, all without callback. */
  function Init(c: D.Ctx): (r: (D.Ctx, seq<D.Trans>))
    requires D.ValidCtx(c)
    ensures |r.1| == 5 && r.0.prevRegId == REG_CALIBRATION
  {
    var (c1, t1) := ReadReg(c, REG_MFTR_ID, false);
    var (c2, t2) := ReadReg(c1, REG_DEV_ID, false);
    var (c3, t3) := WriteReg(c2, REG_CONFIG, CONFIG_RESET, false);
    var (c4, t4) := WriteReg(c3, REG_MASK_EN, 0, false);
    var (c5, t5) := WriteReg(c4, REG_CALIBRATION, 0, false);
    (c5, [t1, t2, t3, t4, t5])
  }

  /** On a fresh context the init sequence is: address and read both id
      registers, then write CONFIG = 0x8000, MASK_EN = 0 and CAL = 0, in
      that order, each high byte first. */
  lemma InitTransactions(c: D.Ctx)
    requires D.ValidCtx(c) && c.prevRegId == D.REG_INVALID
    ensures Init(c).1 == [
      D.Trans(D.WriteRead, [REG_MFTR_ID], 2, true),
      D.Trans(D.WriteRead, [REG_DEV_ID], 2, true),
      D.Trans(D.Write, [REG_CONFIG, 0x80, 0x00], 0, false),
      D.Trans(D.Write, [REG_MASK_EN, 0, 0], 0, false),
      D.Trans(D.Write, [REG_CALIBRATION, 0, 0], 0, false)]
  {
  }
}
