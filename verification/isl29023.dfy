/** The ISL29023 ambient-light sensor driver (dev_Light_isl29023.c).
    Registers are 16 bits written least significant byte first after the
    register byte; a register read writes the register byte and reads two
    bytes into buffer[1..2]. The device is reset into once-per-cycle ALS
    mode, the interrupt is cleared by reading the command register, and
    the thresholds are set so that every conversion raises the interrupt.
    The interrupt line reads the data register; its completion clears the
    interrupt again and hands the client the reading in lux, 24.8 fixed
    point. The float arithmetic of that conversion is modelled with exact
    rationals rounded down. */
module Isl29023 {
  import opened Bytes
  import opened Wrappers
  import I2c
  import B = SensorBus

  const I2C_ADDR: u8 := 0x44
  const REG_CMD: u8 := 0x00
  const REG_DATA: u8 := 0x02
  const REG_INT_LT: u8 := 0x04
  const REG_INT_HT: u8 := 0x06

  const THRESHOLD_LOW_DEFAULT: u16 := 0x0000
  const THRESHOLD_HIGH_DEFAULT: u16 := 0x0001

  const OP_ONCE_PER_CYCLE_ALS: nat := 1
  const OP_ONCE_PER_CYCLE_IR: nat := 2
  const OP_CONTINUOUS_ALS: nat := 5

  /** DEV_LIGHT_INT_PERSIST, DEV_LIGHT_RESOLUTION and DEV_LIGHT_RANGE:
      one cycle, 16-bit resolution, the 64000 lux range. */
  const PERSIST: nat := 0
  const RESOLUTION: nat := 0
  const RANGE: nat := 3

  const RANGE_IR: nat := 65535

  /** DEV_LIGHT_REG_CMD_BUILD: resolution at bits 10-11, range at 8-9,
      operating mode at 5-7, persistence at 0-1. The macro does not mask
      its arguments; every caller passes values that fit their fields. */
  function CmdBuild(op: nat, prst: nat, res: nat, range: nat): (r: u16)
    requires op < 8 && prst < 4 && res < 4 && range < 4
    ensures r < 0x1000
  {
    res * 0x400 + range * 0x100 + op * 0x20 + prst
  }

  /** The low byte goes to COMMAND-I (mode and persistence), the high byte
      to COMMAND-II (resolution and range), and each field reads back. */
  lemma CmdFields(op: nat, prst: nat, res: nat, range: nat)
    requires op < 8 && prst < 4 && res < 4 && range < 4
    ensures var w := U16(CmdBuild(op, prst, res, range));
            && w[0] / 0x20 == op && w[0] % 0x20 == prst
            && w[1] / 4 == res && w[1] % 4 == range
  {
    var r := CmdBuild(op, prst, res, range);
    assert r == (res * 4 + range) * 256 + (op * 0x20 + prst);
    DivMul(res * 4 + range, op * 0x20 + prst, 256);
    DivMul(op, prst, 0x20);
    DivMul(res, range, 4);
  }

  /** The lux full-scale range of each range code, as the driver's table
      has it: the second entry is 2000, though code 1 is the 4000 lux
      range (DEV_LIGHT_REG_RANGE_4000). */
  function RangeLuxAsWritten(code: nat): (r: nat)
    requires code < 4
    ensures code != 1 ==> r == RangeLux(code)
  {
    [1000, 2000, 16000, 64000][code]
  }

  /** The full-scale range of each code: 1000 lux, times four per code. */
  function RangeLux(code: nat): (r: nat)
    requires code < 4
    ensures r == 1000 * Pow2(2 * code)
  {
    assert Pow2(2) == 4 && Pow2(4) == 16 && Pow2(6) == 64 by {
      assert Pow2(0) == 1;
    }
    [1000, 4000, 16000, 64000][code]
  }

  /** The table as written disagrees with the range code 1 selects. */
  lemma RangeLuxAsWrittenWrongAtCode1()
    ensures RangeLuxAsWritten(1) != RangeLux(1)
  {
  }

  /** The range a reading is scaled by: the ALS range in the two ALS
      modes, the IR range otherwise. */
  function RangeOf(opMode: nat): (r: nat)
    ensures (opMode == OP_ONCE_PER_CYCLE_ALS || opMode == OP_CONTINUOUS_ALS) ==> r == 64000
    ensures !(opMode == OP_ONCE_PER_CYCLE_ALS || opMode == OP_CONTINUOUS_ALS) ==> r == RANGE_IR
  {
    if opMode == OP_ONCE_PER_CYCLE_ALS || opMode == OP_CONTINUOUS_ALS then RangeLux(RANGE) else RANGE_IR
  }

  /** The ADC count full scale at 16-bit resolution, as written: 65356. */
  const ADC_FULL_AS_WRITTEN: nat := 65356
  /** 2^16. */
  const ADC_FULL: nat := 0x1_0000

  /** data * range / 65356 in 24.8 fixed point, as written. */
  function LuxAsWritten(data: u16, range: nat): (r: nat)
    ensures r * ADC_FULL_AS_WRITTEN <= data * range * 256 < (r + 1) * ADC_FULL_AS_WRITTEN
  {
    data * range * 256 / ADC_FULL_AS_WRITTEN
  }

  /** data * range / 65536 in 24.8 fixed point. */
  function Lux(data: u16, range: nat): (r: nat)
    ensures r * ADC_FULL <= data * range * 256 < (r + 1) * ADC_FULL
  {
    data * range * 256 / ADC_FULL
  }

  /** A full-scale count maps to at most the full-scale range. */
  lemma LuxWithinRange(data: u16, range: nat)
    ensures Lux(data, range) <= range * 256
  {
    var r := Lux(data, range);
    assert data * range <= 0xFFFF * range;
    assert r * ADC_FULL <= 0xFFFF * range * 256;
  }

  /** More counts never read as less light. */
  lemma LuxMonotone(d1: u16, d2: u16, range: nat)
    requires d1 <= d2
    ensures Lux(d1, range) <= Lux(d2, range)
  {
    var r1, r2 := Lux(d1, range), Lux(d2, range);
    assert d1 * range <= d2 * range;
  }

  /** As written, a full-scale ALS count reads above the 64000 lux range. */
  lemma LuxAsWrittenExceedsRange()
    ensures LuxAsWritten(0xFFFF, RangeOf(OP_ONCE_PER_CYCLE_ALS)) > RangeOf(OP_ONCE_PER_CYCLE_ALS) * 256
    ensures Lux(0xFFFF, RangeOf(OP_ONCE_PER_CYCLE_ALS)) <= RangeOf(OP_ONCE_PER_CYCLE_ALS) * 256
  {
    LuxWithinRange(0xFFFF, 64000);
  }

  /** The driver callbacks passed as usrData. */
  datatype Next = ClearInterrupt | SetThresholdHigh | SetThresholdLow | ThresholdRead

  datatype Effect = Queue(t: B.Trans<Next>) | Call(client: nat, lux: nat)

  datatype State = State(buffer: seq<u8>, measCb: Option<nat>, opMode: nat)

  predicate Valid(s: State) { |s.buffer| == 3 }

  predicate Queued(t: B.Trans<Next>) {
    t.addr == I2C_ADDR
    && ((t.kind == I2c.Write && t.rLen == 0 && |t.wBuf| == 3)
        || (t.kind == I2c.WriteRead && |t.wBuf| == 1 && t.rLen == 2))
  }

  /** dev_Light_i2cRegWrite: the register byte, then the value least
      significant byte first. */
  function RegWriteTrans(s: State, reg: u8, value: u16, next: Option<Next>): (r: (State, B.Trans<Next>))
    requires Valid(s)
    ensures Valid(r.0) && Queued(r.1) && r.0.measCb == s.measCb && r.0.opMode == s.opMode
    ensures r.1 == B.WriteOf(I2C_ADDR, [reg, value % 256, value / 256], next)
    ensures r.1.wBuf[1..] == U16(value) && FromLE(r.1.wBuf[1..]) == value
  {
    var bytes := [reg, value % 256, value / 256];
    assert bytes[1..] == U16(value);
    (s.(buffer := bytes), B.WriteOf(I2C_ADDR, bytes, next))
  }

  /** dev_Light_i2cRegRead: the register byte is written and two bytes
      are read into buffer[1..2]. */
  function RegReadTrans(s: State, reg: u8, next: Option<Next>): (r: (State, B.Trans<Next>))
    requires Valid(s)
    ensures Valid(r.0) && Queued(r.1) && r.0.buffer == [reg, 0, 0]
    ensures r.0.measCb == s.measCb && r.0.opMode == s.opMode
    ensures r.1 == B.Trans(I2c.WriteRead, I2C_ADDR, [reg], 2, next)
  {
    (s.(buffer := [reg, 0, 0]), B.Trans(I2c.WriteRead, I2C_ADDR, [reg], 2, next))
  }

  /** The data register word: buffer[2] << 8 | buffer[1]. */
  function Data(s: State): (r: u16)
    requires Valid(s)
    ensures r == FromLE(s.buffer[1..3])
  {
    assert s.buffer[1..3][1..] == [s.buffer[2]];
    assert FromLE([s.buffer[2]]) == s.buffer[2] by {
      assert [s.buffer[2]][1..] == [];
    }
    s.buffer[2] as int * 256 + s.buffer[1] as int
  }

  /** dev_Light_thresholdReadHandler: the reading is taken, the interrupt
      cleared by a read of the command register, and the client called
      with the reading in lux. */
  function ThresholdReadStep(s: State): (r: (State, seq<Effect>))
    requires Valid(s)
    ensures Valid(r.0) && r.0.measCb == s.measCb && r.0.opMode == s.opMode
    ensures |r.1| == (if s.measCb.Some? then 2 else 1)
    ensures r.1[0] == Queue(B.Trans(I2c.WriteRead, I2C_ADDR, [REG_CMD], 2, None))
    ensures s.measCb.Some? ==> r.1[1] == Call(s.measCb.value, Lux(Data(s), RangeOf(s.opMode)))
  {
    var data := Data(s);
    var (s1, t) := RegReadTrans(s, REG_CMD, None);
    (s1, [Queue(t)] + if s.measCb.Some? then [Call(s.measCb.value, Lux(data, RangeOf(s.opMode)))] else [])
  }

  /** The driver callback named by a completed transaction's usrData: the
      reset chain clears the interrupt, sets the high threshold, then the
      low one. */
  function Callback(s: State, n: Next): (r: (State, seq<Effect>))
    requires Valid(s)
    ensures Valid(r.0) && r.0.measCb == s.measCb && r.0.opMode == s.opMode
  {
    match n
    case ClearInterrupt =>
      var (s1, t) := RegReadTrans(s, REG_CMD, Some(SetThresholdHigh));
      (s1, [Queue(t)])
    case SetThresholdHigh =>
      var (s1, t) := RegWriteTrans(s, REG_INT_HT, THRESHOLD_HIGH_DEFAULT, Some(SetThresholdLow));
      (s1, [Queue(t)])
    case SetThresholdLow =>
      var (s1, t) := RegWriteTrans(s, REG_INT_LT, THRESHOLD_LOW_DEFAULT, None);
      (s1, [Queue(t)])
    case ThresholdRead => ThresholdReadStep(s)
  }

  /** Completion of a queued transaction (dev_Light_i2cTransCallback). */
  function Complete(s: State, t: B.Trans<Next>, reply: seq<u8>): (r: (State, seq<Effect>))
    requires Valid(s) && Queued(t) && |reply| == t.rLen
    ensures Valid(r.0) && r.0.measCb == s.measCb && r.0.opMode == s.opMode
    ensures t.next.None? ==> r.1 == []
  {
    var s1 := if t.kind == I2c.WriteRead then s.(buffer := B.Place(s.buffer, 1, reply)) else s;
    if t.next.Some? then Callback(s1, t.next.value) else (s1, [])
  }

  /** dev_Light_init, after the GPIO set-up: no client, and the reset
      write of the command register. */
  function Init(s: State): (r: (State, seq<Effect>))
    requires Valid(s)
    ensures Valid(r.0) && r.0.measCb.None?
    ensures r.1 == [Queue(B.WriteOf(I2C_ADDR, [REG_CMD, 0x20, 0x03], Some(ClearInterrupt)))]
  {
    assert CmdBuild(OP_ONCE_PER_CYCLE_ALS, PERSIST, RESOLUTION, RANGE) == 0x0320;
    var (s1, t) := RegWriteTrans(s.(measCb := None), REG_CMD, CmdBuild(OP_ONCE_PER_CYCLE_ALS, PERSIST, RESOLUTION, RANGE), Some(ClearInterrupt));
    (s1, [Queue(t)])
  }

  /** dev_Light_measTriggerCommon: the client and the mode are stored and
      the command register written with the mode. */
  function MeasTriggerCommon(s: State, cb: Option<nat>, mode: nat): (r: (State, seq<Effect>))
    requires Valid(s) && mode < 8
    ensures Valid(r.0) && r.0.measCb == cb && r.0.opMode == mode
    ensures r.1 == [Queue(B.WriteOf(I2C_ADDR, [REG_CMD, CmdBuild(mode, PERSIST, RESOLUTION, RANGE) % 256, CmdBuild(mode, PERSIST, RESOLUTION, RANGE) / 256], None))]
  {
    var (s1, t) := RegWriteTrans(s.(measCb := cb, opMode := mode), REG_CMD, CmdBuild(mode, PERSIST, RESOLUTION, RANGE), None);
    (s1, [Queue(t)])
  }

  /** dev_Light_measTriggerAls. */
  function MeasTriggerAls(s: State, cb: Option<nat>): (r: (State, seq<Effect>))
    requires Valid(s)
    ensures Valid(r.0) && r.0.measCb == cb && RangeOf(r.0.opMode) == 64000
    ensures r.1 == [Queue(B.WriteOf(I2C_ADDR, [REG_CMD, 0x20, 0x03], None))]
  {
    assert CmdBuild(OP_ONCE_PER_CYCLE_ALS, PERSIST, RESOLUTION, RANGE) == 0x0320;
    MeasTriggerCommon(s, cb, OP_ONCE_PER_CYCLE_ALS)
  }

  /** dev_Light_measTriggerIr. */
  function MeasTriggerIr(s: State, cb: Option<nat>): (r: (State, seq<Effect>))
    requires Valid(s)
    ensures Valid(r.0) && r.0.measCb == cb && RangeOf(r.0.opMode) == RANGE_IR
    ensures r.1 == [Queue(B.WriteOf(I2C_ADDR, [REG_CMD, 0x40, 0x03], None))]
  {
    assert CmdBuild(OP_ONCE_PER_CYCLE_IR, PERSIST, RESOLUTION, RANGE) == 0x0340;
    MeasTriggerCommon(s, cb, OP_ONCE_PER_CYCLE_IR)
  }

  /** dev_Light_intHandler: read the data register. */
  function IntHandler(s: State): (r: (State, seq<Effect>))
    requires Valid(s)
    ensures Valid(r.0) && r.0.measCb == s.measCb && r.0.opMode == s.opMode
    ensures r.1 == [Queue(B.Trans(I2c.WriteRead, I2C_ADDR, [REG_DATA], 2, Some(ThresholdRead)))]
  {
    var (s1, t) := RegReadTrans(s, REG_DATA, Some(ThresholdRead));
    (s1, [Queue(t)])
  }

  // ---------------------------------------------------------------------
  // Chains

  /** The reset chain: the command register is written, read back to
      clear the interrupt, then the high threshold 1 and the low
      threshold 0 are written, and the chain ends. */
  lemma ResetChain(s: State, cmd: seq<u8>)
    requires Valid(s) && |cmd| == 2
    ensures var (s1, e1) := Init(s);
            var (s2, e2) := Complete(s1, e1[0].t, []);
            && e2 == [Queue(B.Trans(I2c.WriteRead, I2C_ADDR, [REG_CMD], 2, Some(SetThresholdHigh)))]
            && var (s3, e3) := Complete(s2, e2[0].t, cmd);
               && e3 == [Queue(B.WriteOf(I2C_ADDR, [REG_INT_HT, 0x01, 0x00], Some(SetThresholdLow)))]
               && var (s4, e4) := Complete(s3, e3[0].t, []);
                  && e4 == [Queue(B.WriteOf(I2C_ADDR, [REG_INT_LT, 0x00, 0x00], None))]
                  && Complete(s4, e4[0].t, []).1 == []
  {
  }

  /** An ALS measurement: after the trigger, the interrupt's data read
      completes with the reading, the interrupt is cleared and the client
      gets the reading scaled to the 64000 lux range. */
  lemma MeasAlsChain(s: State, cb: nat, lo: u8, hi: u8)
    requires Valid(s)
    ensures var (s1, _) := MeasTriggerAls(s, Some(cb));
            var (s2, e2) := IntHandler(s1);
            var (s3, e3) := Complete(s2, e2[0].t, [lo, hi]);
            e3 == [Queue(B.Trans(I2c.WriteRead, I2C_ADDR, [REG_CMD], 2, None)), Call(cb, Lux(hi * 256 + lo, 64000))]
  {
    var (s1, _) := MeasTriggerAls(s, Some(cb));
    var (s2, e2) := IntHandler(s1);
    var s2r := s2.(buffer := B.Place(s2.buffer, 1, [lo, hi]));
    assert s2r.buffer[1] == lo && s2r.buffer[2] == hi;
    assert Data(s2r) == hi * 256 + lo;
  }
}
