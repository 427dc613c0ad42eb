/** The push-button driver (bsp_Button.c): a table of buttons, each an
    input pin with a press polarity, an enable flag and a press handler.
    An edge interrupt hands the first enabled button on that pin to its
    handler after disabling it, so a bouncing contact raises one event.
    GPIO register writes are returned as effects. */
module Button {
  import opened Bytes

  /** BSP_BUTTON_PRESS_POLARITY_LOW / _HIGH. */
  datatype Polarity = High | Low

  /** bsp_Button_IoInfo_t: the platform's pin description. */
  datatype IoInfo = IoInfo(port: nat, mask: nat, polarity: Polarity)

  /** bsp_Button_Info_t: the control flag (true for ENABLE) and whether a
      handler is registered. */
  datatype Info = Info(enabled: bool, hasHandler: bool)

  datatype Pull = PullUp | PullDown
  datatype Edge = Falling | Rising

  /** GPIO calls the driver makes, and the handler call. */
  datatype Effect =
    | IntControl(port: nat, mask: nat, enable: bool)
    | ConfigInput(port: nat, mask: nat, pull: Pull)
    | IntConfig(port: nat, mask: nat, edge: Edge)
    | CallHandler(id: nat)

  /** The pull that holds an unpressed button at its idle level. */
  function PullFor(p: Polarity): (r: Pull)
    ensures r == PullUp <==> p == Low
  {
    if p == Low then PullUp else PullDown
  }

  /** The edge a press produces. */
  function EdgeFor(p: Polarity): (r: Edge)
    ensures r == Falling <==> p == Low
  {
    if p == Low then Falling else Rising
  }

  /** bsp_Button_init: every button disabled, without handler, as an input
      pulled to its idle level. */
  function Init(io: seq<IoInfo>): (r: (seq<Info>, seq<Effect>))
    ensures |r.0| == |io| && forall i :: 0 <= i < |io| ==> r.0[i] == Info(false, false)
    ensures |r.1| == 2 * |io|
    ensures forall i :: 0 <= i < |io| ==>
              && r.1[2 * i] == IntControl(io[i].port, io[i].mask, false)
              && r.1[2 * i + 1] == ConfigInput(io[i].port, io[i].mask, PullFor(io[i].polarity))
  {
    if io == [] then ([], [])
    else
      var rest := Init(io[1..]);
      ([Info(false, false)] + rest.0,
       [IntControl(io[0].port, io[0].mask, false), ConfigInput(io[0].port, io[0].mask, PullFor(io[0].polarity))] + rest.1)
  }

  /** The entries bsp_Button_ioHandler would act on for an edge on pin
      `pin` of `port`. */
  predicate Matches(io: seq<IoInfo>, infos: seq<Info>, i: nat, port: nat, pin: nat)
    requires |infos| == |io|
  {
    i < |io| && io[i].port == port && io[i].mask == Pow2(pin) && infos[i].enabled && infos[i].hasHandler
  }

  /** The first matching entry, searching from index `from`. */
  function FirstMatch(io: seq<IoInfo>, infos: seq<Info>, port: nat, pin: nat, from: nat): (r: int)
    requires |infos| == |io| && from <= |io|
    ensures r == -1 || from <= r < |io|
    ensures r == -1 <==> forall i :: from <= i < |io| ==> !Matches(io, infos, i, port, pin)
    ensures r >= 0 ==> Matches(io, infos, r, port, pin) && forall i :: from <= i < r ==> !Matches(io, infos, i, port, pin)
    decreases |io| - from
  {
    if from == |io| then -1
    else if Matches(io, infos, from, port, pin) then from
    else FirstMatch(io, infos, port, pin, from + 1)
  }

  /** bsp_Button_ioHandler: the first enabled button with a handler on the
      interrupting pin is disabled, its interrupt masked, and its handler
      called; nothing else happens. */
  function IoHandler(io: seq<IoInfo>, infos: seq<Info>, port: nat, pin: nat): (r: (seq<Info>, seq<Effect>))
    requires |infos| == |io|
    ensures |r.0| == |infos|
    ensures var k := FirstMatch(io, infos, port, pin, 0);
            && (k == -1 ==> r == (infos, []))
            && (k >= 0 ==> && r.0 == infos[k := Info(false, true)]
                           && r.1 == [IntControl(io[k].port, io[k].mask, false), CallHandler(k)])
  {
    var k := FirstMatch(io, infos, port, pin, 0);
    if k == -1 then (infos, [])
    else (infos[k := infos[k].(enabled := false)], [IntControl(io[k].port, io[k].mask, false), CallHandler(k)])
  }

  /** bsp_Button_control: disabling acts only on an enabled button;
      enabling only on a disabled one that has a handler. */
  function Control(io: seq<IoInfo>, infos: seq<Info>, id: nat, enable: bool): (r: (seq<Info>, seq<Effect>))
    requires |infos| == |io| && id < |io|
    ensures |r.0| == |infos| && forall i :: 0 <= i < |infos| && i != id ==> r.0[i] == infos[i]
    ensures r.0[id].hasHandler == infos[id].hasHandler
    ensures !enable ==> !r.0[id].enabled
    ensures enable ==> (r.0[id].enabled <==> infos[id].enabled || infos[id].hasHandler)
    ensures r.1 != [] <==> r.0[id].enabled != infos[id].enabled
    ensures r.1 != [] ==> r.1 == [IntControl(io[id].port, io[id].mask, enable)]
  {
    if !enable && infos[id].enabled then
      (infos[id := infos[id].(enabled := false)], [IntControl(io[id].port, io[id].mask, false)])
    else if enable && !infos[id].enabled && infos[id].hasHandler then
      (infos[id := infos[id].(enabled := true)], [IntControl(io[id].port, io[id].mask, true)])
    else (infos, [])
  }

  /** bsp_Button_registerHandler: the handler is stored and the pin set to
      interrupt on the edge a press makes; the control flag is untouched. */
  function RegisterHandler(io: seq<IoInfo>, infos: seq<Info>, id: nat, present: bool): (r: (seq<Info>, seq<Effect>))
    requires |infos| == |io| && id < |io|
    ensures r.0 == infos[id := Info(infos[id].enabled, present)]
    ensures r.1 == [IntConfig(io[id].port, io[id].mask, EdgeFor(io[id].polarity))]
  {
    (infos[id := infos[id].(hasHandler := present)], [IntConfig(io[id].port, io[id].mask, EdgeFor(io[id].polarity))])
  }

  /** bsp_Button_state: PRESSED only for a LOW-polarity button reading 0. */
  function Pressed(p: Polarity, readMask: nat): (r: bool)
    ensures r <==> p == Low && readMask == 0
  {
    match p
    case Low => readMask == 0
    case High => false
  }

  /** As written, a HIGH-polarity button never reads as pressed, whatever
      its pin level. */
  lemma HighNeverPressed(readMask: nat)
    ensures !Pressed(High, readMask)
    ensures Pressed(Low, 0) && !Pressed(Low, readMask + 1)
  {
  }

  /** Control twice in the same direction is the same as once. */
  lemma ControlIdempotent(io: seq<IoInfo>, infos: seq<Info>, id: nat, enable: bool)
    requires |infos| == |io| && id < |io|
    ensures var r := Control(io, infos, id, enable);
            Control(io, r.0, id, enable) == (r.0, [])
  {
  }

  /** A button fires once per enable: after the handler runs, further edges
      on the same pin never call it again until it is re-enabled. */
  lemma FiresOncePerEnable(io: seq<IoInfo>, infos: seq<Info>, port: nat, pin: nat)
    requires |infos| == |io|
    requires FirstMatch(io, infos, port, pin, 0) >= 0
    ensures var k := FirstMatch(io, infos, port, pin, 0);
            var r := IoHandler(io, infos, port, pin);
            CallHandler(k) !in IoHandler(io, r.0, port, pin).1
  {
    var k := FirstMatch(io, infos, port, pin, 0);
    var r := IoHandler(io, infos, port, pin);
    assert !Matches(io, r.0, k, port, pin);
    var k2 := FirstMatch(io, r.0, port, pin, 0);
    if k2 >= 0 {
      forall i | 0 <= i < k
        ensures !Matches(io, r.0, i, port, pin)
      {
        assert !Matches(io, infos, i, port, pin);
      }
      assert k2 != k;
    }
  }
}
