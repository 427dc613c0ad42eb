/** The TMP006 infrared thermopile driver (dev_Temp_tmp006.c). Registers
    are 16 bits, sent most significant byte first after a pointer byte.
    At init the device is reset, powered on, and its pointer left on the
    temperature register for good; from then on every falling edge of the
    data-ready line queues a two-byte read, whose completion stores the
    temperature and calls the client. The temperature is kept in 10.6
    fixed point: the 14-bit reading times 0.03125 degrees, times 64, which
    is the reading times two with no rounding. */
module Tmp006 {
  import opened Bytes
  import opened Wrappers
  import I2c
  import B = SensorBus

  const I2C_ADDR: u8 := 0x41
  const REG_VOLTAGE: u8 := 0x00
  const REG_TEMPERATURE: u8 := 0x01
  const REG_CONFIG: u8 := 0x02

  const MODE_POWER_DOWN: nat := 0x00
  const MODE_POWER_ON: nat := 0x07
  const CONV_RATE_2: nat := 0x01
  const RESET_DELAY_MS: nat := 100
  const POWER_ON_DELAY_MS: nat := 1

  /** The configuration word: reset at bit 15, mode at bits 12-14,
      conversion rate at bits 9-11, data-ready enable at bit 8. */
  function ConfigBuild(rst: nat, mode: nat, cnv: nat, drdy: nat): (r: u16)
    ensures r % 256 == 0
  {
    (rst % 2) * 0x8000 + (mode % 8) * 0x1000 + (cnv % 8) * 0x200 + (drdy % 2) * 0x100
  }

  /** Each field is read back from its bits, masked as the macro masks it. */
  lemma ConfigFields(rst: nat, mode: nat, cnv: nat, drdy: nat)
    ensures var r := ConfigBuild(rst, mode, cnv, drdy);
            && r / 0x8000 == rst % 2 && r / 0x1000 % 8 == mode % 8
            && r / 0x200 % 8 == cnv % 8 && r / 0x100 % 2 == drdy % 2
  {
    var a, b, c, d := rst % 2, mode % 8, cnv % 8, drdy % 2;
    var r := ConfigBuild(rst, mode, cnv, drdy);
    assert r == (((a * 8 + b) * 8 + c) * 2 + d) * 0x100;
    DivMul(((a * 8 + b) * 8 + c) * 2 + d, 0, 0x100);
    DivMul((a * 8 + b) * 8 + c, d, 2);
    DivMul((a * 8 + b) * 8 + c, 0, 0x200);
    DivMul(a * 8 + b, c, 8);
    DivMul(a * 8 + b, 0, 0x1000);
    DivMul(a, b, 8);
    DivMul(a, 0, 0x8000);
  }

  /** dev_Temp_i2cRegWrite: pointer, high byte, low byte. */
  function RegWriteBytes(pointer: u8, value: u16): (r: seq<u8>)
    ensures |r| == 3 && r[0] == pointer
    ensures (r[1] as int) * 256 + (r[2] as int) == value as int
  {
    [pointer, value / 256, value % 256]
  }

  /** The 14-bit temperature reading `b0 << 6 | b1 >> 2`: the register
      word with its two unused low bits dropped. */
  function Raw14(b0: u8, b1: u8): (r: nat)
    ensures r < 0x4000
    ensures r == (b0 * 256 + b1) / 4
  {
    b0 * 64 + b1 / 4
  }

  /** A reading is recovered from the register bytes the device sends,
      whatever the two unused bits hold. */
  lemma Raw14RoundTrip(v: nat, unused: nat)
    requires v < 0x4000 && unused < 4
    ensures Raw14((v * 4 + unused) / 256, (v * 4 + unused) % 256) == v
  {
  }

  /** The stored temperature: reading * 0.03125 * 64 cast to uint16_t. */
  function Fixed10p6(b0: u8, b1: u8): (r: u16)
    ensures r % 2 == 0 && r < 0x8000
    ensures r / 2 == Raw14(b0, b1)
  {
    Raw14(b0, b1) * 2
  }

  /** The only driver callback passed as usrData. */
  datatype Next = ReadComplete

  datatype Effect = Queue(t: B.Trans<Next>) | Delay(ms: nat) | Call(client: nat, temperature: u16)

  datatype State = State(buffer: seq<u8>, temperature: u16, measCb: Option<nat>)

  predicate Valid(s: State) { |s.buffer| == 3 }

  predicate Queued(t: B.Trans<Next>) {
    t.addr == I2C_ADDR
    && ((t.kind == I2c.Write && t.rLen == 0 && 1 <= |t.wBuf| <= 3)
        || (t.kind == I2c.Read && t.wBuf == [] && t.rLen == 2))
  }

  /** dev_Temp_i2cRegWrite with no callback. */
  function RegWrite(s: State, pointer: u8, value: u16): (r: (State, Effect))
    requires Valid(s)
    ensures Valid(r.0) && r.1.Queue? && Queued(r.1.t)
    ensures r.1 == Queue(B.WriteOf(I2C_ADDR, RegWriteBytes(pointer, value), None))
  {
    var bytes := RegWriteBytes(pointer, value);
    (s.(buffer := bytes), Queue(B.WriteOf(I2C_ADDR, bytes, None)))
  }

  /** dev_Temp_regSelect: the pointer byte alone. */
  function RegSelect(s: State, reg: u8): (r: (State, Effect))
    requires Valid(s)
    ensures Valid(r.0) && r.0.buffer[0] == reg
    ensures r.1 == Queue(B.WriteOf(I2C_ADDR, [reg], None))
  {
    (s.(buffer := s.buffer[0 := reg]), Queue(B.WriteOf(I2C_ADDR, [reg], None)))
  }

  /** The reset word: reset, power down, two samples averaged, data-ready
      off. */
  const RESET_WORD: u16 := ConfigBuild(1, MODE_POWER_DOWN, CONV_RATE_2, 0)
  /** The power-on word: continuous conversion, two samples averaged,
      data-ready on. */
  const POWER_ON_WORD: u16 := ConfigBuild(0, MODE_POWER_ON, CONV_RATE_2, 1)

  /** dev_Temp_init, after the GPIO set-up: reset, wait, power on, wait,
      then point the device at the temperature register. */
  function Init(s: State): (r: (State, seq<Effect>))
    requires Valid(s)
    ensures Valid(r.0) && r.0.measCb == s.measCb
    ensures r.1 == [Queue(B.WriteOf(I2C_ADDR, [REG_CONFIG, 0x82, 0x00], None)), Delay(RESET_DELAY_MS),
                    Queue(B.WriteOf(I2C_ADDR, [REG_CONFIG, 0x73, 0x00], None)), Delay(POWER_ON_DELAY_MS),
                    Queue(B.WriteOf(I2C_ADDR, [REG_TEMPERATURE], None))]
  {
    var (s1, e1) := RegWrite(s, REG_CONFIG, RESET_WORD);
    var (s2, e2) := RegWrite(s1, REG_CONFIG, POWER_ON_WORD);
    var (s3, e3) := RegSelect(s2, REG_TEMPERATURE);
    (s3, [e1, Delay(RESET_DELAY_MS), e2, Delay(POWER_ON_DELAY_MS), e3])
  }

  /** The two configuration words decode to the settings the driver names. */
  lemma InitWords()
    ensures RESET_WORD / 0x8000 == 1 && RESET_WORD / 0x1000 % 8 == MODE_POWER_DOWN
    ensures RESET_WORD / 0x200 % 8 == CONV_RATE_2 && RESET_WORD / 0x100 % 2 == 0
    ensures POWER_ON_WORD / 0x8000 == 0 && POWER_ON_WORD / 0x1000 % 8 == MODE_POWER_ON
    ensures POWER_ON_WORD / 0x200 % 8 == CONV_RATE_2 && POWER_ON_WORD / 0x100 % 2 == 1
  {
    assert RESET_WORD == 0x8200 && POWER_ON_WORD == 0x7300;
  }

  /** dev_Temp_dataReadyHandler: a two-byte read into the buffer. */
  function DataReady(s: State): (r: (State, seq<Effect>))
    requires Valid(s)
    ensures r.0 == s
    ensures r.1 == [Queue(B.Trans(I2c.Read, I2C_ADDR, [], 2, Some(ReadComplete)))]
  {
    (s, [Queue(B.Trans(I2c.Read, I2C_ADDR, [], 2, Some(ReadComplete)))])
  }

  /** dev_Temp_readCompleteHandler. */
  function ReadCompleteStep(s: State): (r: (State, seq<Effect>))
    requires Valid(s)
    ensures Valid(r.0) && r.0.buffer == s.buffer && r.0.measCb == s.measCb
    ensures r.0.temperature == Fixed10p6(s.buffer[0], s.buffer[1])
    ensures r.1 == (if s.measCb.Some? then [Call(s.measCb.value, r.0.temperature)] else [])
  {
    var s1 := s.(temperature := Fixed10p6(s.buffer[0], s.buffer[1]));
    (s1, if s.measCb.Some? then [Call(s.measCb.value, s1.temperature)] else [])
  }

  /** Completion of a queued transaction (dev_Temp_i2cTransCallback). */
  function Complete(s: State, t: B.Trans<Next>, reply: seq<u8>): (r: (State, seq<Effect>))
    requires Valid(s) && Queued(t) && |reply| == t.rLen
    ensures Valid(r.0) && r.0.measCb == s.measCb
    ensures t.next.None? ==> r.1 == []
  {
    var s1 := if t.kind == I2c.Read then s.(buffer := B.Place(s.buffer, 0, reply)) else s;
    if t.next.Some? then ReadCompleteStep(s1) else (s1, [])
  }

  /** dev_Temp_measTrigger: only the callback is stored; the next
      data-ready edge does the rest. */
  function MeasTrigger(s: State, cb: Option<nat>): (r: State)
    ensures r.measCb == cb && r.buffer == s.buffer && r.temperature == s.temperature
  {
    s.(measCb := cb)
  }

  /** dev_Temp_measRead. */
  function MeasRead(s: State): (r: u16)
    ensures r == s.temperature
  {
    s.temperature
  }

  /** A data-ready edge after a trigger: the reading of the two reply
      bytes is stored and handed to the client. */
  lemma DataReadyChain(s: State, cb: nat, b0: u8, b1: u8)
    requires Valid(s)
    ensures var s1 := MeasTrigger(s, Some(cb));
            var (s2, e2) := DataReady(s1);
            var (s3, e3) := Complete(s2, e2[0].t, [b0, b1]);
            && MeasRead(s3) / 2 == Raw14(b0, b1)
            && e3 == [Call(cb, MeasRead(s3))]
  {
    var s1 := MeasTrigger(s, Some(cb));
    var (s2, e2) := DataReady(s1);
    var buf := B.Place(s2.buffer, 0, [b0, b1]);
    assert buf[0] == b0 && buf[1] == b1;
  }
}
