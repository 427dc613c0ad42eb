/** The SHT21 temperature driver (dev_Temp_sht21.c). It keeps a write
    buffer of two bytes and a read buffer of three; commands are plain
    writes and replies plain reads, so each step of a chain is a command
    write whose completion queues the read. A measurement reads
    temperature, then humidity, then calls the client. The words kept are
    the raw measurement words; their floating-point conversion to 10.6
    fixed point is not part of this model. */
module TempSht21 {
  import opened Bytes
  import opened Wrappers
  import I2c
  import S = Sht21
  import B = SensorBus

  /** The driver callbacks passed as usrData. */
  datatype Next = TempTrigger | TempRead | HumidTrigger | HumidRead | RegReadCmd | RegRead | RegWrite

  /** A call of the client's dev_Temp_MeasCallback_t, whose parameters
      are (temp, hum) in that order. */
  datatype Effect = Queue(t: B.Trans<Next>) | Call(client: nat, temp: u16, hum: u16)

  datatype State = State(writeBuf: seq<u8>, readBuf: seq<u8>, temp: u16, humid: u16,
                         measCb: Option<nat>, resolution: bv8, regWriteDone: bool)

  predicate Valid(s: State) { |s.writeBuf| == 2 && |s.readBuf| == 3 }

  /** The transactions this driver queues: writes of one or two bytes,
      and reads of one or three bytes into the read buffer. */
  predicate Queued(t: B.Trans<Next>) {
    t.addr == S.I2C_ADDR
    && ((t.kind == I2c.Write && t.rLen == 0 && 1 <= |t.wBuf| <= 2)
        || (t.kind == I2c.Read && t.wBuf == [] && t.rLen in {1, 3}))
  }

  /** dev_Temp_i2cSndCmd. */
  function SndCmd(s: State, cmd: u8, next: Option<Next>): (r: (State, B.Trans<Next>))
    requires Valid(s)
    ensures Valid(r.0) && Queued(r.1) && r.0.readBuf == s.readBuf
    ensures r.1 == B.WriteOf(S.I2C_ADDR, [cmd], next)
  {
    (s.(writeBuf := s.writeBuf[0 := cmd]), B.WriteOf(S.I2C_ADDR, [cmd], next))
  }

  /** dev_Temp_i2cRegWrite: [REG_WRITE, reg]. */
  function RegWriteTrans(s: State, reg: u8, next: Option<Next>): (r: (State, B.Trans<Next>))
    requires Valid(s)
    ensures Valid(r.0) && Queued(r.1)
    ensures r.1 == B.WriteOf(S.I2C_ADDR, [S.CMD_REG_WRITE, reg], next)
  {
    (s.(writeBuf := [S.CMD_REG_WRITE, reg]), B.WriteOf(S.I2C_ADDR, [S.CMD_REG_WRITE, reg], next))
  }

  /** dev_Temp_i2cRead: a read of len bytes into the read buffer. */
  function ReadTrans(len: nat, next: Next): (t: B.Trans<Next>)
    requires len in {1, 3}
    ensures Queued(t) && t.kind == I2c.Read && t.rLen == len && t.next == Some(next)
  {
    B.Trans(I2c.Read, S.I2C_ADDR, [], len, Some(next))
  }

  /** The client call once humidity is read, as written: the humidity is
      passed first, in the parameter the callback type names temp. */
  function HumidReadCallAsWritten(s: State): (r: seq<Effect>)
    ensures s.measCb.None? <==> r == []
    ensures s.measCb.Some? ==> r == [Call(s.measCb.value, s.humid, s.temp)]
  {
    if s.measCb.Some? then [Call(s.measCb.value, s.humid, s.temp)] else []
  }

  /** The client call as the callback type declares it: temperature first,
      then humidity. */
  function HumidReadCall(s: State): (r: seq<Effect>)
    ensures s.measCb.None? <==> r == []
    ensures s.measCb.Some? ==> r == [Call(s.measCb.value, s.temp, s.humid)]
  {
    if s.measCb.Some? then [Call(s.measCb.value, s.temp, s.humid)] else []
  }

  /** dev_Temp_i2cTransCbackRegRead as written: the register byte read
      is passed through DEV_TEMP_REG_SET_RES, the same macro as the
      humidity driver's, which loses resolution bit 1 in the uint8_t. */
  function RegReadStepAsWritten(s: State): (r: (State, seq<Effect>))
    requires Valid(s)
    ensures Valid(r.0)
    ensures r.1 == [Queue(B.WriteOf(S.I2C_ADDR, [S.CMD_REG_WRITE, S.SetResAsWritten(s.readBuf[0] as bv8, s.resolution) as int], Some(RegWrite)))]
  {
    var (s1, t) := RegWriteTrans(s, S.SetResAsWritten(s.readBuf[0] as bv8, s.resolution) as int, Some(RegWrite));
    (s1, [Queue(t)])
  }

  /** dev_Temp_i2cTransCbackRegRead as intended: the register byte read
      comes back with the resolution bits set. */
  function RegReadStep(s: State): (r: (State, seq<Effect>))
    requires Valid(s)
    ensures Valid(r.0)
    ensures r.1 == [Queue(B.WriteOf(S.I2C_ADDR, [S.CMD_REG_WRITE, S.SetRes(s.readBuf[0] as bv8, s.resolution) as int], Some(RegWrite)))]
  {
    var (s1, t) := RegWriteTrans(s, S.SetRes(s.readBuf[0] as bv8, s.resolution) as int, Some(RegWrite));
    (s1, [Queue(t)])
  }

  /** The driver callback named by a completed transaction's usrData. */
  function Callback(s: State, n: Next): (r: (State, seq<Effect>))
    requires Valid(s)
    ensures Valid(r.0)
    ensures n == TempRead ==> r.0.temp == S.Raw(s.readBuf[0], s.readBuf[1])
    ensures n == HumidRead ==> r.0.humid == S.Raw(s.readBuf[0], s.readBuf[1]) && r.0.temp == s.temp
    ensures n == RegWrite ==> r == (s.(regWriteDone := true), [])
  {
    match n
    case TempTrigger => (s, [Queue(ReadTrans(3, TempRead))])
    case TempRead =>
      var (s1, t) := SndCmd(s.(temp := S.Raw(s.readBuf[0], s.readBuf[1])), S.CMD_TRIG_RH_HOLD, Some(HumidTrigger));
      (s1, [Queue(t)])
    case HumidTrigger => (s, [Queue(ReadTrans(3, HumidRead))])
    case HumidRead =>
      var s1 := s.(humid := S.Raw(s.readBuf[0], s.readBuf[1]));
      (s1, HumidReadCall(s1))
    case RegReadCmd => (s, [Queue(ReadTrans(1, RegRead))])
    case RegRead => RegReadStep(s)
    case RegWrite => (s.(regWriteDone := true), [])
  }

  /** Completion of a queued transaction (dev_Temp_i2cTransCallback): a
      read's reply lands at the start of the read buffer, then the usrData
      callback, if any, runs. */
  function Complete(s: State, t: B.Trans<Next>, reply: seq<u8>): (r: (State, seq<Effect>))
    requires Valid(s) && Queued(t) && |reply| == t.rLen
    ensures Valid(r.0)
    ensures t.next.None? ==> r.1 == []
  {
    var s1 := if t.kind == I2c.Read then s.(readBuf := B.Place(s.readBuf, 0, reply)) else s;
    if t.next.Some? then Callback(s1, t.next.value) else (s1, [])
  }

  /** dev_Temp_i2cTriggerMeas. */
  function MeasTrigger(s: State, cb: Option<nat>): (r: (State, seq<Effect>))
    requires Valid(s)
    ensures Valid(r.0) && r.0.measCb == cb
    ensures r.1 == [Queue(B.WriteOf(S.I2C_ADDR, [S.CMD_TRIG_T_HOLD], Some(TempTrigger)))]
  {
    var (s1, t) := SndCmd(s.(measCb := cb), S.CMD_TRIG_T_HOLD, Some(TempTrigger));
    (s1, [Queue(t)])
  }

  /** dev_Temp_Config: the REG_READ command is sent; the chain goes on in
      the completion callbacks until regWriteDone is set. */
  function Config(s: State, res: bv8): (r: (State, seq<Effect>))
    requires Valid(s)
    ensures Valid(r.0) && !r.0.regWriteDone && r.0.resolution == res
    ensures r.1 == [Queue(B.WriteOf(S.I2C_ADDR, [S.CMD_REG_READ], Some(RegReadCmd)))]
  {
    var (s1, t) := SndCmd(s.(regWriteDone := false, resolution := res), S.CMD_REG_READ, Some(RegReadCmd));
    (s1, [Queue(t)])
  }

  /** dev_Temp_init: both words zeroed, a soft reset, the resolution
      configured, then the first measurement triggered. */
  function Init(s: State, cb: Option<nat>): (r: (State, seq<Effect>))
    requires Valid(s)
    ensures Valid(r.0) && r.0.temp == 0 && r.0.humid == 0 && r.0.measCb == cb
    ensures r.1 == [Queue(B.WriteOf(S.I2C_ADDR, [S.CMD_REG_RESET], None)),
                    Queue(B.WriteOf(S.I2C_ADDR, [S.CMD_REG_READ], Some(RegReadCmd))),
                    Queue(B.WriteOf(S.I2C_ADDR, [S.CMD_TRIG_T_HOLD], Some(TempTrigger)))]
  {
    var (s1, t) := SndCmd(s.(temp := 0, humid := 0), S.CMD_REG_RESET, None);
    var (s2, e2) := Config(s1, S.PLATFORM_RESOLUTION);
    var (s3, e3) := MeasTrigger(s2, cb);
    (s3, [Queue(t)] + e2 + e3)
  }

  /** dev_Temp_measRead: the last (temp, humid) pair. */
  function MeasRead(s: State): (r: (u16, u16))
    ensures r.0 == s.temp && r.1 == s.humid
  {
    (s.temp, s.humid)
  }

  // ---------------------------------------------------------------------
  // Chains

  /** A measurement is four transactions: the temperature command, its
      read, the humidity command, its read; the client is then called
      with temperature first, each word taken from its reply. */
  lemma MeasTriggerChain(s: State, cb: nat, tr: seq<u8>, h: seq<u8>)
    requires Valid(s) && |tr| == 3 && |h| == 3
    ensures var (s1, e1) := MeasTrigger(s, Some(cb));
            var (s2, e2) := Complete(s1, e1[0].t, []);
            && e2 == [Queue(ReadTrans(3, TempRead))]
            && var (s3, e3) := Complete(s2, e2[0].t, tr);
               && e3 == [Queue(B.WriteOf(S.I2C_ADDR, [S.CMD_TRIG_RH_HOLD], Some(HumidTrigger)))]
               && var (s4, e4) := Complete(s3, e3[0].t, []);
                  && e4 == [Queue(ReadTrans(3, HumidRead))]
                  && var (s5, e5) := Complete(s4, e4[0].t, h);
                     && e5 == [Call(cb, S.Raw(tr[0], tr[1]), S.Raw(h[0], h[1]))]
                     && MeasRead(s5) == (S.Raw(tr[0], tr[1]), S.Raw(h[0], h[1]))
  {
    var (s1, e1) := MeasTrigger(s, Some(cb));
    var (s2, e2) := Complete(s1, e1[0].t, []);
    var (s3, e3) := Complete(s2, e2[0].t, tr);
    assert s3.temp == S.Raw(tr[0], tr[1]) && s3.measCb == Some(cb);
    var (s4, e4) := Complete(s3, e3[0].t, []);
    assert s4.temp == s3.temp && s4.measCb == Some(cb);
    var (s5, e5) := Complete(s4, e4[0].t, h);
    assert s5.humid == S.Raw(h[0], h[1]) && s5.temp == s4.temp;
  }

  /** As written, the client receives humidity in the temperature
      parameter and temperature in the humidity parameter whenever the
      two words differ. */
  lemma HumidReadCallAsWrittenSwaps(s: State)
    requires s.measCb.Some? && s.temp != s.humid
    ensures HumidReadCallAsWritten(s)[0].temp == s.humid
    ensures HumidReadCallAsWritten(s) != HumidReadCall(s)
  {
  }

  /** Configuration: the REG_READ command, a one-byte read, then the
      register is written back with only the resolution bits changed,
      and the write's completion ends the spin. */
  lemma ConfigChain(s: State, res: bv8, reg: u8)
    requires Valid(s)
    ensures var (s1, e1) := Config(s, res);
            var (s2, e2) := Complete(s1, e1[0].t, []);
            && e2 == [Queue(ReadTrans(1, RegRead))]
            && var (s3, e3) := Complete(s2, e2[0].t, [reg]);
               && e3 == [Queue(B.WriteOf(S.I2C_ADDR, [S.CMD_REG_WRITE, S.SetRes(reg as bv8, res) as int], Some(RegWrite)))]
               && Complete(s3, e3[0].t, []).0.regWriteDone
  {
    var (s1, e1) := Config(s, res);
    var (s2, e2) := Complete(s1, e1[0].t, []);
    var (s3, e3) := Complete(s2, e2[0].t, [reg]);
    assert s3.writeBuf == [S.CMD_REG_WRITE, S.SetRes(reg as bv8, res) as int];
  }

  /** As written, the register the temperature driver writes back at init
      selects RH8_T12 where the platform asks for RH11_T11, whatever the
      register read back held; the corrected write-back selects the
      platform's resolution and keeps the other bits. The two differ for
      every register read. */
  lemma RegReadStepAsWrittenLosesPlatformResolution(s: State)
    requires Valid(s) && s.resolution == S.PLATFORM_RESOLUTION
    ensures S.ResOf(S.SetResAsWritten(s.readBuf[0] as bv8, s.resolution)) == 0x01
    ensures S.ResOf(S.SetRes(s.readBuf[0] as bv8, s.resolution)) == S.PLATFORM_RESOLUTION
    ensures RegReadStepAsWritten(s) != RegReadStep(s)
  {
    var reg := s.readBuf[0] as bv8;
    S.SetResAsWrittenLosesPlatformResolution(reg);
    var w1, w2 := S.SetResAsWritten(reg, s.resolution), S.SetRes(reg, s.resolution);
    RegWritesDiffer(w1, w2);
  }

  /** Two register writes of different bytes are different effects. */
  lemma RegWritesDiffer(w1: bv8, w2: bv8)
    requires S.ResOf(w1) != S.ResOf(w2)
    ensures [Queue(B.WriteOf(S.I2C_ADDR, [S.CMD_REG_WRITE, w1 as int], Some(RegWrite)))]
         != [Queue(B.WriteOf(S.I2C_ADDR, [S.CMD_REG_WRITE, w2 as int], Some(RegWrite)))]
  {
    assert w1 as int != w2 as int;
    var e1 := Queue(B.WriteOf(S.I2C_ADDR, [S.CMD_REG_WRITE, w1 as int], Some(RegWrite)));
    assert e1.t.wBuf[1] == w1 as int;
  }
}
