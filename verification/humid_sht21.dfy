/** The SHT21 humidity driver (dev_Humid_sht21.c). One buffer of four
    bytes serves every transaction: a measurement or register read is a
    write-read that sends the command byte from buffer[0] and receives
    three bytes into buffer[1..3]. The driver chains its steps through the
    I2C completion callback: a combined measurement reads humidity, then
    temperature, then calls the client with both. The words kept are the
    raw measurement words; their floating-point conversion to 10.6 fixed
    point is not part of this model. */
module HumidSht21 {
  import opened Bytes
  import opened Wrappers
  import I2c
  import S = Sht21
  import B = SensorBus

  const BUF_LEN: nat := 4

  /** The driver callbacks passed as usrData. */
  datatype Next = HumidRead | TempRead | RegRead | RegWrite

  /** The measurement callbacks: a client's, or a link of the combined
      measurement (dev_Humid_ComboCbackHumidity / ...Temperature). */
  datatype MeasCb = Client(id: nat) | ComboHumidity | ComboTemperature

  datatype Effect =
    | Queue(t: B.Trans<Next>)
    | CallOne(client: nat, value: u16)
    | CallBoth(client: nat, humidity: u16, temperature: u16)

  datatype State = State(buffer: seq<u8>, humidity: u16, temperature: u16,
                         humidCb: Option<MeasCb>, tempCb: Option<MeasCb>, comboCb: Option<nat>,
                         resolution: bv8, regWriteDone: bool)

  predicate Valid(s: State) { |s.buffer| == BUF_LEN }

  /** The transactions this driver queues: writes, and write-reads of one
      command byte and three reply bytes. */
  predicate Queued(t: B.Trans<Next>) {
    t.addr == S.I2C_ADDR
    && ((t.kind == I2c.Write && t.rLen == 0) || (t.kind == I2c.WriteRead && |t.wBuf| == 1 && t.rLen == 3))
  }

  /** dev_Humid_i2cSndCmd. */
  function SndCmd(s: State, cmd: u8, next: Option<Next>): (r: (State, B.Trans<Next>))
    requires Valid(s)
    ensures Valid(r.0) && Queued(r.1)
    ensures r.1 == B.WriteOf(S.I2C_ADDR, [cmd], next)
  {
    (s.(buffer := s.buffer[0 := cmd]), B.WriteOf(S.I2C_ADDR, [cmd], next))
  }

  /** dev_Humid_i2cRegWrite: [REG_WRITE, reg]. */
  function RegWriteTrans(s: State, reg: u8, next: Option<Next>): (r: (State, B.Trans<Next>))
    requires Valid(s)
    ensures Valid(r.0) && Queued(r.1)
    ensures r.1 == B.WriteOf(S.I2C_ADDR, [S.CMD_REG_WRITE, reg], next)
  {
    (s.(buffer := s.buffer[0 := S.CMD_REG_WRITE][1 := reg]), B.WriteOf(S.I2C_ADDR, [S.CMD_REG_WRITE, reg], next))
  }

  /** dev_Humid_i2cRegRead: the buffer becomes [cmd, 0, 0, 0] and a
      write-read of the command byte and three reply bytes is queued. */
  function RegReadTrans(s: State, cmd: u8, next: Next): (r: (State, B.Trans<Next>))
    requires Valid(s)
    ensures Valid(r.0) && Queued(r.1) && r.0.buffer == [cmd, 0, 0, 0]
    ensures r.1 == B.Trans(I2c.WriteRead, S.I2C_ADDR, [cmd], 3, Some(next))
    ensures r.0.(buffer := s.buffer) == s
  {
    (s.(buffer := [cmd, 0, 0, 0]), B.Trans(I2c.WriteRead, S.I2C_ADDR, [cmd], 3, Some(next)))
  }

  /** dev_Humid_i2cTriggerMeasHumidity. */
  function TriggerHumidity(s: State, cb: Option<MeasCb>): (r: (State, seq<Effect>))
    requires Valid(s)
    ensures Valid(r.0) && r.0.humidCb == cb && r.0.buffer[0] == S.CMD_TRIG_RH_HOLD
    ensures r.1 == [Queue(B.Trans(I2c.WriteRead, S.I2C_ADDR, [S.CMD_TRIG_RH_HOLD], 3, Some(HumidRead)))]
  {
    var (s1, t) := RegReadTrans(s.(humidCb := cb), S.CMD_TRIG_RH_HOLD, HumidRead);
    (s1, [Queue(t)])
  }

  /** dev_Humid_i2cTriggerMeasTemperature. */
  function TriggerTemperature(s: State, cb: Option<MeasCb>): (r: (State, seq<Effect>))
    requires Valid(s)
    ensures Valid(r.0) && r.0.tempCb == cb && r.0.buffer[0] == S.CMD_TRIG_T_HOLD
    ensures r.0.humidity == s.humidity && r.0.comboCb == s.comboCb
    ensures r.1 == [Queue(B.Trans(I2c.WriteRead, S.I2C_ADDR, [S.CMD_TRIG_T_HOLD], 3, Some(TempRead)))]
  {
    var (s1, t) := RegReadTrans(s.(tempCb := cb), S.CMD_TRIG_T_HOLD, TempRead);
    (s1, [Queue(t)])
  }

  /** A measurement callback run with the value just read: a client gets
      the value; the combined measurement goes on to temperature after
      humidity and calls its client with both words after temperature. */
  function RunMeasCb(s: State, c: MeasCb, v: u16): (r: (State, seq<Effect>))
    requires Valid(s)
    ensures Valid(r.0)
    ensures c.Client? ==> r == (s, [CallOne(c.id, v)])
    ensures c.ComboTemperature? ==> r.0 == s && r.1 == (if s.comboCb.Some? then [CallBoth(s.comboCb.value, s.humidity, s.temperature)] else [])
  {
    match c
    case Client(id) => (s, [CallOne(id, v)])
    case ComboHumidity => TriggerTemperature(s, Some(ComboTemperature))
    case ComboTemperature =>
      if s.comboCb.Some? then (s, [CallBoth(s.comboCb.value, s.humidity, s.temperature)]) else (s, [])
  }

  /** dev_Humid_i2cTransCbackRegRead as written: the register value is
      taken from buffer[0], which still holds the REG_READ command byte;
      the register the device sent is in buffer[1]. */
  function RegReadStepAsWritten(s: State): (r: (State, seq<Effect>))
    requires Valid(s)
    ensures Valid(r.0)
    ensures r.1 == [Queue(B.WriteOf(S.I2C_ADDR, [S.CMD_REG_WRITE, S.SetResAsWritten(s.buffer[0] as bv8, s.resolution) as int], Some(RegWrite)))]
  {
    var reg := S.SetResAsWritten(s.buffer[0] as bv8, s.resolution);
    var (s1, t) := RegWriteTrans(s, reg as int, Some(RegWrite));
    (s1, [Queue(t)])
  }

  /** The register write-back as intended: the register the device sent,
      with the resolution bits set. */
  function RegReadStep(s: State): (r: (State, seq<Effect>))
    requires Valid(s)
    ensures Valid(r.0) && r.0.regWriteDone == s.regWriteDone
    ensures r.1 == [Queue(B.WriteOf(S.I2C_ADDR, [S.CMD_REG_WRITE, S.SetRes(s.buffer[1] as bv8, s.resolution) as int], Some(RegWrite)))]
  {
    var reg := S.SetRes(s.buffer[1] as bv8, s.resolution);
    var (s1, t) := RegWriteTrans(s, reg as int, Some(RegWrite));
    (s1, [Queue(t)])
  }

  /** The driver callback named by a completed transaction's usrData. */
  function Callback(s: State, n: Next): (r: (State, seq<Effect>))
    requires Valid(s)
    ensures Valid(r.0)
    ensures n == RegWrite ==> r == (s.(regWriteDone := true), [])
    ensures n == HumidRead ==> r.0.humidity == S.Raw(s.buffer[1], s.buffer[2])
    ensures n == TempRead ==> r.0.temperature == S.Raw(s.buffer[1], s.buffer[2])
  {
    match n
    case HumidRead =>
      var s1 := s.(humidity := S.Raw(s.buffer[1], s.buffer[2]));
      if s1.humidCb.Some? then RunMeasCb(s1, s1.humidCb.value, s1.humidity) else (s1, [])
    case TempRead =>
      var s1 := s.(temperature := S.Raw(s.buffer[1], s.buffer[2]));
      if s1.tempCb.Some? then RunMeasCb(s1, s1.tempCb.value, s1.temperature) else (s1, [])
    case RegRead => RegReadStep(s)
    case RegWrite => (s.(regWriteDone := true), [])
  }

  /** Completion of a queued transaction (dev_Humid_i2cTransCallback): a
      write-read's reply lands after the command byte, then the usrData
      callback, if any, runs. */
  function Complete(s: State, t: B.Trans<Next>, reply: seq<u8>): (r: (State, seq<Effect>))
    requires Valid(s) && Queued(t) && |reply| == t.rLen
    ensures Valid(r.0)
    ensures t.next.None? ==> r.1 == []
  {
    var buf := if t.kind == I2c.WriteRead then B.Place(s.buffer, 1, reply) else s.buffer;
    var s1 := s.(buffer := buf);
    if t.next.Some? then Callback(s1, t.next.value) else (s1, [])
  }

  /** dev_Humid_Config: the user register is read, and the chain goes on
      in the completion callbacks until regWriteDone is set. */
  function Config(s: State, res: bv8): (r: (State, seq<Effect>))
    requires Valid(s)
    ensures Valid(r.0) && !r.0.regWriteDone && r.0.resolution == res
    ensures r.1 == [Queue(B.Trans(I2c.WriteRead, S.I2C_ADDR, [S.CMD_REG_READ], 3, Some(RegRead)))]
  {
    var (s1, t) := RegReadTrans(s.(regWriteDone := false, resolution := res), S.CMD_REG_READ, RegRead);
    (s1, [Queue(t)])
  }

  /** dev_Humid_init: both words zeroed, a soft reset sent, then the
      resolution configured. */
  function Init(s: State): (r: (State, seq<Effect>))
    requires Valid(s)
    ensures Valid(r.0) && r.0.humidity == 0 && r.0.temperature == 0
    ensures r.1 == [Queue(B.WriteOf(S.I2C_ADDR, [S.CMD_REG_RESET], None)),
                    Queue(B.Trans(I2c.WriteRead, S.I2C_ADDR, [S.CMD_REG_READ], 3, Some(RegRead)))]
  {
    var (s1, t) := SndCmd(s.(humidity := 0, temperature := 0), S.CMD_REG_RESET, None);
    var (s2, es) := Config(s1, S.PLATFORM_RESOLUTION);
    (s2, [Queue(t)] + es)
  }

  function ClientCb(cb: Option<nat>): (r: Option<MeasCb>)
    ensures r.Some? <==> cb.Some?
    ensures cb.Some? ==> r.value == Client(cb.value)
  {
    if cb.Some? then Some(Client(cb.value)) else None
  }

  /** dev_Humid_measTrigger. */
  function MeasTrigger(s: State, cb: Option<nat>): (r: (State, seq<Effect>))
    requires Valid(s)
    ensures Valid(r.0) && r.0.comboCb == cb && r.0.humidCb == Some(ComboHumidity)
    ensures r.1 == [Queue(B.Trans(I2c.WriteRead, S.I2C_ADDR, [S.CMD_TRIG_RH_HOLD], 3, Some(HumidRead)))]
  {
    TriggerHumidity(s.(comboCb := cb), Some(ComboHumidity))
  }

  /** dev_Humid_measTriggerHumidity. */
  function MeasTriggerHumidity(s: State, cb: Option<nat>): (r: (State, seq<Effect>))
    requires Valid(s)
    ensures Valid(r.0) && r.0.humidCb == ClientCb(cb)
    ensures r.1 == [Queue(B.Trans(I2c.WriteRead, S.I2C_ADDR, [S.CMD_TRIG_RH_HOLD], 3, Some(HumidRead)))]
  {
    TriggerHumidity(s, ClientCb(cb))
  }

  /** dev_Humid_measTriggerTemperature. */
  function MeasTriggerTemperature(s: State, cb: Option<nat>): (r: (State, seq<Effect>))
    requires Valid(s)
    ensures Valid(r.0) && r.0.tempCb == ClientCb(cb)
    ensures r.1 == [Queue(B.Trans(I2c.WriteRead, S.I2C_ADDR, [S.CMD_TRIG_T_HOLD], 3, Some(TempRead)))]
  {
    TriggerTemperature(s, ClientCb(cb))
  }

  // ---------------------------------------------------------------------
  // Chains

  /** A combined measurement: humidity is measured first, then
      temperature, and the client is called once with (humidity,
      temperature) as the data bytes of the two replies give them. */
  lemma MeasTriggerChain(s: State, cb: nat, h: seq<u8>, tr: seq<u8>)
    requires Valid(s) && |h| == 3 && |tr| == 3
    ensures var (s1, e1) := MeasTrigger(s, Some(cb));
            var (s2, e2) := Complete(s1, e1[0].t, h);
            && e2 == [Queue(B.Trans(I2c.WriteRead, S.I2C_ADDR, [S.CMD_TRIG_T_HOLD], 3, Some(TempRead)))]
            && var (s3, e3) := Complete(s2, e2[0].t, tr);
               e3 == [CallBoth(cb, S.Raw(h[0], h[1]), S.Raw(tr[0], tr[1]))]
  {
    var (s1, e1) := MeasTrigger(s, Some(cb));
    var (s2, e2) := Complete(s1, e1[0].t, h);
    assert s2.humidity == S.Raw(h[0], h[1]);
    var (s3, e3) := Complete(s2, e2[0].t, tr);
    assert s3.humidity == S.Raw(h[0], h[1]) && s3.temperature == S.Raw(tr[0], tr[1]);
  }

  /** Configuration as intended: the device's user register u comes back
      with only the resolution bits changed, and the write's completion
      ends the spin. */
  lemma ConfigChain(s: State, res: bv8, reply: seq<u8>)
    requires Valid(s) && |reply| == 3
    ensures var (s1, e1) := Config(s, res);
            var (s2, e2) := Complete(s1, e1[0].t, reply);
            && e2 == [Queue(B.WriteOf(S.I2C_ADDR, [S.CMD_REG_WRITE, S.SetRes(reply[0] as bv8, res) as int], Some(RegWrite)))]
            && Complete(s2, e2[0].t, []).0.regWriteDone
  {
  }

  /** Configuration as written: the byte written back is built from the
      REG_READ command byte, not from the register the device sent. */
  lemma ConfigAsWrittenIgnoresRegister(s: State, res: bv8, reply: seq<u8>)
    requires Valid(s) && |reply| == 3
    ensures var (s1, e1) := Config(s, res);
            var s2 := s1.(buffer := B.Place(s1.buffer, 1, reply));
            RegReadStepAsWritten(s2).1 == [Queue(B.WriteOf(S.I2C_ADDR, [S.CMD_REG_WRITE, S.SetResAsWritten(S.CMD_REG_READ as bv8, res) as int], Some(RegWrite)))]
  {
  }

  /** For instance a register holding 0x3A (as after reset, bits 3-5
      set) is written back as 0x67 rather than 0xBB. */
  lemma ConfigAsWrittenExample(s: State)
    requires Valid(s)
    ensures var (s1, e1) := Config(s, S.PLATFORM_RESOLUTION);
            var s2 := s1.(buffer := B.Place(s1.buffer, 1, [0x3A, 0, 0]));
            && RegReadStepAsWritten(s2).1[0].t.wBuf == [S.CMD_REG_WRITE, 0x67]
            && RegReadStep(s2).1[0].t.wBuf == [S.CMD_REG_WRITE, 0xBB]
  {
  }
}
