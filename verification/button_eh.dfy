/** The button event handler (svc_ButtonEh.c): per-button debounce and
    press tracking driven by a 100 ms one-shot timer. An edge interrupt
    starts debouncing; a poll that finds the button pressed reports a
    press and, after 2000 ms of polls, a long press; a poll that finds it
    released re-enables the edge interrupt. Indications are broadcast;
    timers and broadcasts are returned as effects. */
module ButtonEh {
  import opened Bytes
  import B = Button

  const POLLING_PERIOD_MS: nat := 100
  const LONG_PRESS_MS: nat := 2000
  const LONG_PRESS_POLL_COUNT: nat := LONG_PRESS_MS / POLLING_PERIOD_MS

  datatype State = Unpressed | Debouncing | Press | LongPress

  /** svc_ButtonEh_ButtonInfo_t without its name and timer handle; count is
      an int8 bit-field. */
  datatype Info = Info(state: State, count: int)

  /** count fits its int8 field, and PRESS is only ever held with a
      positive count (it is entered with 19 and left when the count reaches
      0), so the decrement never wraps. */
  predicate Wf(b: Info) {
    -128 <= b.count < 128 && (b.state == Press ==> 0 < b.count < LONG_PRESS_POLL_COUNT)
  }

  datatype Effect =
    | Enable
    | Disable
    | TimerStart(ms: nat)
    | PressInd
    | ReleaseInd
    | LongPressInd

  /** svc_ButtonEh_buttonHandler: called by the driver on an edge. */
  function ButtonHandler(b: Info): (r: (Info, seq<Effect>))
    ensures r.0.state == Debouncing && r.0.count == b.count
    ensures r.1 == [Disable, TimerStart(POLLING_PERIOD_MS)]
  {
    (b.(state := Debouncing), [Disable, TimerStart(POLLING_PERIOD_MS)])
  }

  /** svc_ButtonEh_timerCallback for one button, given what
      bsp_Button_state reads. */
  function Poll(b: Info, pressed: bool): (r: (Info, seq<Effect>))
    requires Wf(b)
    ensures Wf(r.0) && Disable !in r.1
    ensures !pressed ==> r.0.state == Unpressed && Enable in r.1 && TimerStart(POLLING_PERIOD_MS) !in r.1
    ensures !pressed ==> (ReleaseInd in r.1 <==> b.state in {Press, LongPress})
    ensures pressed ==> r.0.state != Unpressed && r.1 != [] && TimerStart(POLLING_PERIOD_MS) in r.1 && Enable !in r.1
    ensures pressed && b.state in {Unpressed, Debouncing} ==>
              r.0 == Info(Press, LONG_PRESS_POLL_COUNT - 1) && PressInd in r.1
    ensures pressed && b.state == Press ==>
              && r.0.count == b.count - 1
              && (r.0.state == LongPress <==> b.count - 1 <= 0)
              && (LongPressInd in r.1 <==> b.count - 1 <= 0)
    ensures pressed && b.state == LongPress ==> r == (b, [TimerStart(POLLING_PERIOD_MS)])
    ensures PressInd in r.1 ==> b.state in {Unpressed, Debouncing}
  {
    match b.state
    case Press =>
      if !pressed then (b.(state := Unpressed), [Enable, ReleaseInd])
      else
        var c := b.count - 1;
        if c <= 0 then (Info(LongPress, c), [LongPressInd, TimerStart(POLLING_PERIOD_MS)])
        else (Info(Press, c), [TimerStart(POLLING_PERIOD_MS)])
    case LongPress =>
      if !pressed then (b.(state := Unpressed), [Enable, ReleaseInd])
      else (b, [TimerStart(POLLING_PERIOD_MS)])
    case _ =>
      if pressed then (Info(Press, LONG_PRESS_POLL_COUNT - 1), [TimerStart(POLLING_PERIOD_MS), PressInd])
      else (b.(state := Unpressed), [Enable])
  }

  /** The indications a run of polls broadcasts, and the final state. */
  function Polls(b: Info, levels: seq<bool>): (r: (Info, seq<Effect>))
    requires Wf(b)
    ensures Wf(r.0)
    decreases |levels|
  {
    if levels == [] then (b, [])
    else
      var (b1, e1) := Poll(b, levels[0]);
      var (b2, e2) := Polls(b1, levels[1..]);
      (b2, e1 + e2)
  }

  function Held(n: nat): (r: seq<bool>)
    ensures |r| == n && forall i :: 0 <= i < n ==> r[i]
  {
    seq(n, _ => true)
  }

  function Count(e: Effect, es: seq<Effect>): nat {
    if es == [] then 0 else (if es[0] == e then 1 else 0) + Count(e, es[1..])
  }

  lemma {:induction false} CountAppend(e: Effect, a: seq<Effect>, b: seq<Effect>)
    ensures Count(e, a + b) == Count(e, a) + Count(e, b)
  {
    if a != [] {
      assert (a + b)[0] == a[0] && (a + b)[1..] == a[1..] + b;
      CountAppend(e, a[1..], b);
    } else {
      assert a + b == b;
    }
  }

  /** While the button stays down in PRESS with count c, k < c more polls
      keep it in PRESS without a long-press indication, and poll c makes
      the one long-press indication. */
  lemma {:induction false} PressCountsDown(c: int, k: nat)
    requires 0 < c < LONG_PRESS_POLL_COUNT && k <= c
    ensures var r := Polls(Info(Press, c), Held(k));
            && (k < c ==> r.0 == Info(Press, c - k) && Count(LongPressInd, r.1) == 0)
            && (k == c ==> r.0 == Info(LongPress, 0) && Count(LongPressInd, r.1) == 1)
  {
    if k > 0 {
      var (b1, e1) := Poll(Info(Press, c), true);
      assert Held(k)[1..] == Held(k - 1);
      if c - 1 > 0 {
        PressCountsDown(c - 1, k - 1);
      } else {
        assert k == 1;
        assert Held(0) == [];
      }
      CountAppend(LongPressInd, e1, Polls(b1, Held(k - 1)).1);
    }
  }

  /** The long press is reported on the twentieth poll after the edge: the
      first poll reports the press, and LONG_PRESS_POLL_COUNT - 1 more
      polls with the button down report the long press, once. */
  lemma LongPressAfterTwoSeconds(b: Info)
    requires b.state == Debouncing && Wf(b)
    ensures var r := Polls(b, Held(LONG_PRESS_POLL_COUNT));
            r.0.state == LongPress && Count(LongPressInd, r.1) == 1 && Count(PressInd, r.1) == 1
    ensures Polls(b, Held(LONG_PRESS_POLL_COUNT - 1)).0.state == Press
  {
    var (b1, e1) := Poll(b, true);
    assert e1 == [TimerStart(POLLING_PERIOD_MS), PressInd];
    assert Held(LONG_PRESS_POLL_COUNT)[1..] == Held(LONG_PRESS_POLL_COUNT - 1);
    assert Held(LONG_PRESS_POLL_COUNT - 1)[1..] == Held(LONG_PRESS_POLL_COUNT - 2);
    PressCountsDown(LONG_PRESS_POLL_COUNT - 1, LONG_PRESS_POLL_COUNT - 1);
    PressCountsDown(LONG_PRESS_POLL_COUNT - 1, LONG_PRESS_POLL_COUNT - 2);
    var r2 := Polls(b1, Held(LONG_PRESS_POLL_COUNT - 1));
    CountAppend(LongPressInd, e1, r2.1);
    CountAppend(PressInd, e1, r2.1);
    PressNotRepeated(LONG_PRESS_POLL_COUNT - 1, LONG_PRESS_POLL_COUNT - 1);
  }

  /** Polls that start in PRESS or LONG_PRESS with the button held never
      report another press. */
  lemma {:induction false} PressNotRepeated(c: int, k: nat)
    requires Wf(Info(Press, c))
    ensures Count(PressInd, Polls(Info(Press, c), Held(k)).1) == 0
    ensures Count(PressInd, Polls(Info(LongPress, c), Held(k)).1) == 0
    decreases k
  {
    if k > 0 {
      assert Held(k)[1..] == Held(k - 1);
      var (b1, e1) := Poll(Info(Press, c), true);
      var (l1, f1) := Poll(Info(LongPress, c), true);
      if b1.state == Press {
        PressNotRepeated(b1.count, k - 1);
      } else {
        PressNotRepeated(c, k - 1);
      }
      PressNotRepeated(c, k - 1);
      CountAppend(PressInd, e1, Polls(b1, Held(k - 1)).1);
      CountAppend(PressInd, f1, Polls(l1, Held(k - 1)).1);
    }
  }

  // ---------------------------------------------------------------------
  // Handler and driver together

  /** One button seen by both layers: the driver's entry, whether the
      handler's one-shot timer is running, and the handler's entry. */
  datatype Both = Both(drv: B.Info, timer: bool, eh: Info)

  /** The edge interrupt is armed exactly while the handler waits in
      UNPRESSED, and the poll timer runs exactly while it does not. */
  predicate Coherent(s: Both) {
    && s.drv.hasHandler && Wf(s.eh)
    && (s.drv.enabled <==> s.eh.state == Unpressed)
    && (s.timer <==> s.eh.state != Unpressed)
  }

  /** The handler's Enable/Disable effects applied through
      bsp_Button_control. */
  function ApplyControl(d: B.Info, es: seq<Effect>): (r: B.Info)
    ensures r.hasHandler == d.hasHandler
    ensures Enable in es && Disable !in es && d.hasHandler ==> r.enabled
    ensures Disable in es && Enable !in es ==> !r.enabled
    ensures Enable !in es && Disable !in es ==> r == d
    decreases |es|
  {
    if es == [] then d
    else
      var io := [B.IoInfo(0, 1, B.Low)];
      var d1 := if es[0] == Enable then B.Control(io, [d], 0, true).0[0]
                else if es[0] == Disable then B.Control(io, [d], 0, false).0[0]
                else d;
      ApplyControl(d1, es[1..])
  }

  /** svc_ButtonEh_init after bsp_Button_init: the handler is registered
      and the button enabled, with the handler's table zeroed. */
  function StartUp(): (s: Both)
    ensures Coherent(s) && s.drv.enabled && s.eh.state == Unpressed
  {
    var io := [B.IoInfo(0, 1, B.Low)];
    var infos := B.Init(io).0;
    var infos1 := B.RegisterHandler(io, infos, 0, true).0;
    Both(B.Control(io, infos1, 0, true).0[0], false, Info(Unpressed, 0))
  }

  /** An edge on an armed button: the driver disables it and calls
      svc_ButtonEh_buttonHandler, which starts the poll timer. */
  function Edge(s: Both): (r: Both)
    requires Coherent(s) && s.drv.enabled
    ensures Coherent(r) && r.eh.state == Debouncing && !r.drv.enabled && r.timer
  {
    var io := [B.IoInfo(0, 1, B.Low)];
    var d := B.IoHandler(io, [s.drv], 0, 0).0[0];
    var (e, es) := ButtonHandler(s.eh);
    Both(ApplyControl(d, es), TimerStart(POLLING_PERIOD_MS) in es, e)
  }

  /** A poll timer expiry, with the button's read level. */
  function Tick(s: Both, pressed: bool): (r: Both)
    requires Coherent(s) && s.timer
    ensures Coherent(r)
    ensures r.drv.enabled <==> !pressed
  {
    var (e, es) := Poll(s.eh, pressed);
    Both(ApplyControl(s.drv, es), TimerStart(POLLING_PERIOD_MS) in es, e)
  }

  /** svc_ButtonEh_timerCallback recovers the button id from the timer
      name "%d_BUTTONEH" as its first character minus '0'. */
  function IdFromName(name: string): (id: int)
    requires |name| > 0
  {
    name[0] as int - '0' as int
  }

  /** The timer name of button id, cut to the 11 characters that fit the
      12-byte name buffer. */
  function TimerName(id: nat): (name: string)
    ensures 0 < |name| <= 11
  {
    var s := Decimal(id) + "_BUTTONEH";
    if |s| <= 11 then s else s[..11]
  }

  function Decimal(n: nat): (s: string)
    ensures 0 < |s| && forall i :: 0 <= i < |s| ==> '0' <= s[i] <= '9'
  {
    if n < 10 then [('0' as int + n) as char] else Decimal(n / 10) + [('0' as int + n % 10) as char]
  }

  /** The id round-trips through the name for every single-digit id. */
  lemma NameRecoversId(id: nat)
    requires id < 10
    ensures IdFromName(TimerName(id)) == id
  {
  }

  /** A two-digit id would be read back as its first digit. */
  lemma TwoDigitIdMisread()
    ensures IdFromName(TimerName(12)) == 1
  {
    assert Decimal(12) == Decimal(1) + ['2'];
  }
}
