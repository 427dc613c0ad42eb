/** The request/confirm pairing and data-indication bookkeeping of the host
    device wrapper (test/TivaUsb.py). The USB transport, worker process and
    pipes are outside the model: the reply a request gets is a parameter. */
module HostTivaUsb {
  import opened Wrappers
  import opened Bytes
  import P = HostProtocol
  import HostPwrMon

  const READY_IND: int := 0
  const CONNECT_REQ: int := 1
  const CONNECT_CNF: int := 2
  const SAMPLE_START_REQ: int := 3
  const SAMPLE_START_CNF: int := 4
  const SAMPLE_STOP_REQ: int := 5
  const SAMPLE_STOP_CNF: int := 6
  const SHUTDOWN_REQ: int := 7
  const SHUTDOWN_CNF: int := 8
  const CONFIG_REQ: int := 9
  const CONFIG_CNF: int := 10
  const CH_AVG_REQ: int := 11
  const CH_AVG_CNF: int := 12
  const STATS_REQ: int := 13
  const STATS_CNF: int := 14
  const CAL_REQ: int := 15
  const CAL_CNF: int := 16

  const SAMPLING_FREQ_HZ: nat := 2500

  /** The confirm that answers each request, pairing the named constants. */
  function ConfirmFor(req: int): Option<int>
  {
    if req == CONNECT_REQ then Some(CONNECT_CNF)
    else if req == SAMPLE_START_REQ then Some(SAMPLE_START_CNF)
    else if req == SAMPLE_STOP_REQ then Some(SAMPLE_STOP_CNF)
    else if req == SHUTDOWN_REQ then Some(SHUTDOWN_CNF)
    else if req == CONFIG_REQ then Some(CONFIG_CNF)
    else if req == CH_AVG_REQ then Some(CH_AVG_CNF)
    else if req == STATS_REQ then Some(STATS_CNF)
    else if req == CAL_REQ then Some(CAL_CNF)
    else None
  }

  /** Every named confirm code is its request code plus one. */
  lemma ConfirmIsRequestPlusOne(req: int)
    ensures ConfirmFor(req).Some? ==> ConfirmFor(req).value == req + 1
  {
  }

  /** The items of a command list: integers, or any other Python object. */
  datatype Item = Int(v: int) | Other

  /** Cmd(data): id is the first item, payload the rest; an empty list
      raises IndexError. */
  function SplitCmd(data: seq<Item>): (r: Result<(Item, seq<Item>), P.Error>)
    ensures r.Success? <==> |data| >= 1
    ensures r.Success? ==> [r.value.0] + r.value.1 == data
  {
    if |data| == 0 then Failure(P.IndexError) else Success((data[0], data[1..]))
  }

  /** sendCmdWaitForCmd: the reply is kept only when its id is the request
      id plus one; any other reply is dropped (None). */
  function AcceptReply(reqId: int, reply: seq<Item>): (r: Result<Option<(Item, seq<Item>)>, P.Error>)
    ensures r.Success? <==> |reply| >= 1
    ensures r.Success? ==> (r.value.Some? <==> reply[0] == Int(reqId + 1))
    ensures r.Success? && r.value.Some? ==> r.value.value.1 == reply[1..]
  {
    var cmd :- SplitCmd(reply);
    if cmd.0 != Int(reqId + 1) then Success(None) else Success(Some(cmd))
  }

  /** A reply to a named request is kept exactly when it carries the
      paired confirm code. */
  lemma AcceptsPairedConfirm(req: int, reply: seq<Item>)
    requires ConfirmFor(req).Some? && |reply| >= 1
    ensures AcceptReply(req, reply).value.Some? <==> reply[0] == Int(ConfirmFor(req).value)
  {
  }

  /** secondsToSampleSets and sampleStart: a timed capture asks for 2500
      sample sets per second. */
  function SampleSetsFor(seconds: nat): (n: nat)
    ensures n % SAMPLING_FREQ_HZ == 0 && n / SAMPLING_FREQ_HZ == seconds
  {
    SAMPLING_FREQ_HZ * seconds
  }

  /** The two counters of pwrMonDataIndHandler. */
  datatype Counters = Counters(dataIndCnt: nat, dataIndErrCnt: nat)

  /** pwrMonDataIndHandler: a message that parses (and that the sample
      handler, if any, accepts without raising) counts as received; every
      exception is swallowed and counted as an error. */
  function OnDataInd(c: Counters, msg: seq<u8>, handlerRaises: bool): (r: Counters)
    ensures (HostPwrMon.ParseDataInd(msg).Success? && !handlerRaises) <==> r == c.(dataIndCnt := c.dataIndCnt + 1)
    ensures r.dataIndCnt + r.dataIndErrCnt == c.dataIndCnt + c.dataIndErrCnt + 1
  {
    match HostPwrMon.ParseDataInd(msg)
    case Success(_) =>
      if handlerRaises then c.(dataIndErrCnt := c.dataIndErrCnt + 1)
      else c.(dataIndCnt := c.dataIndCnt + 1)
    case Failure(_) => c.(dataIndErrCnt := c.dataIndErrCnt + 1)
  }
}
