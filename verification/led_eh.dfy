/** The LED event handler (svc_LedEh.c): colour requests set an LED at
    once; pattern requests keep the request message (one more reference)
    and play its elements, each for its own time, on a per-LED one-shot
    timer, releasing the message after the last. Both requests are
    confirmed to the requester unless it is the LED handler itself. */
module LedEh {
  import opened Bytes
  import opened Wrappers

  /** svc_LedEh_PatternElement_t. */
  datatype Element = Element(color: u32, msTime: u32)

  /** svc_LedEh_SetPatternReq_t as held by the handler: the message (by
      handle), the LED and the elements (cnt is a uint8). */
  datatype Pattern = Pattern(msg: nat, ledId: nat, elems: seq<Element>)

  predicate ValidPattern(p: Pattern) { |p.elems| < 0x100 }

  /** svc_LedEh_LedInfo_t without name and timer handle. */
  datatype LedInfo = LedInfo(color: u32, cnt: nat, pattern: Option<Pattern>)

  datatype CnfKind = ColorCnf | PatternCnf

  datatype Effect =
    | SetColor(ledId: nat, color: u32)
    | TimerStart(led: nat, ms: u32)
    | Retain(msg: nat)
    | Release(msg: nat)
    | Cnf(dest: u8, kind: CnfKind, ledId: nat)

  /** A held pattern is one the handler was given for this LED, and cnt
      counts the elements already shown. */
  predicate InfoOk(id: nat, l: LedInfo) {
    l.pattern.Some? ==> ValidPattern(l.pattern.value) && l.pattern.value.ledId == id && l.cnt <= |l.pattern.value.elems|
  }

  /** svc_LedEh_processPattern: show the next element and arm the timer
      for its time, or, past the end, release the message. The source
      reads the pattern's count before testing for NULL, so a held pattern
      is required. */
  function ProcessPattern(id: nat, l: LedInfo): (r: (LedInfo, seq<Effect>))
    requires InfoOk(id, l) && l.pattern.Some?
    ensures InfoOk(id, r.0)
    ensures var p := l.pattern.value;
            && (l.cnt < |p.elems| ==>
                  && r.0 == LedInfo(p.elems[l.cnt].color, l.cnt + 1, l.pattern)
                  && r.1 == [SetColor(id, p.elems[l.cnt].color), TimerStart(id, p.elems[l.cnt].msTime)])
            && (l.cnt >= |p.elems| ==> r.0 == l.(pattern := None) && r.1 == [Release(p.msg)])
  {
    var p := l.pattern.value;
    if l.cnt < |p.elems| then
      var e := p.elems[l.cnt];
      (LedInfo(e.color, l.cnt + 1, l.pattern), [SetColor(p.ledId, e.color), TimerStart(id, e.msTime)])
    else (l.(pattern := None), [Release(p.msg)])
  }

  /** The handler: one entry per LED and its own eh id. */
  datatype Eh = Eh(self: u8, leds: seq<LedInfo>)

  predicate Valid(e: Eh) {
    forall i :: 0 <= i < |e.leds| ==> InfoOk(i, e.leds[i])
  }

  /** svc_LedEh_init: the table zeroed (the timer names are left out). */
  function Init(self: u8, ledNum: nat): (e: Eh)
    ensures Valid(e) && |e.leds| == ledNum
    ensures forall i :: 0 <= i < ledNum ==> e.leds[i].pattern.None? && e.leds[i].cnt == 0
  {
    Eh(self, seq(ledNum, _ => LedInfo(0, 0, None)))
  }

  /** svc_LedEh_msgHandlerColorReq. */
  function ColorReq(e: Eh, from: u8, ledId: nat, color: u32): (r: (Eh, seq<Effect>))
    requires Valid(e)
    ensures r.0 == e
    ensures ledId >= |e.leds| ==> r.1 == []
    ensures ledId < |e.leds| ==> |r.1| >= 1 && r.1[0] == SetColor(ledId, color)
    ensures ledId < |e.leds| ==> (|r.1| == 2 <==> from != e.self) && |r.1| <= 2
    ensures |r.1| == 2 ==> r.1[1] == Cnf(from, ColorCnf, ledId)
  {
    if ledId >= |e.leds| then (e, [])
    else if from != e.self then (e, [SetColor(ledId, color), Cnf(from, ColorCnf, ledId)])
    else (e, [SetColor(ledId, color)])
  }

  /** svc_LedEh_msgHandlerPatternReq: the old pattern (if any) is released,
      the new one retained and started from its first element. */
  function PatternReq(e: Eh, from: u8, p: Pattern): (r: (Eh, seq<Effect>))
    requires Valid(e) && ValidPattern(p)
    ensures Valid(r.0) && |r.0.leds| == |e.leds|
    ensures p.ledId >= |e.leds| ==> r == (e, [])
    ensures p.ledId < |e.leds| ==>
              && (forall i :: 0 <= i < |e.leds| && i != p.ledId ==> r.0.leds[i] == e.leds[i])
              && r.0.leds[p.ledId] == ProcessPattern(p.ledId, LedInfo(e.leds[p.ledId].color, 0, Some(p))).0
              && r.1 == (if e.leds[p.ledId].pattern.Some? then [Release(e.leds[p.ledId].pattern.value.msg)] else [])
                        + [Retain(p.msg)]
                        + ProcessPattern(p.ledId, LedInfo(e.leds[p.ledId].color, 0, Some(p))).1
                        + (if from != e.self then [Cnf(from, PatternCnf, p.ledId)] else [])
  {
    if p.ledId >= |e.leds| then (e, [])
    else
      var l := e.leds[p.ledId];
      var rel := if l.pattern.Some? then [Release(l.pattern.value.msg)] else [];
      var (l1, es) := ProcessPattern(p.ledId, LedInfo(l.color, 0, Some(p)));
      var cnf := if from != e.self then [Cnf(from, PatternCnf, p.ledId)] else [];
      (e.(leds := e.leds[p.ledId := l1]), rel + [Retain(p.msg)] + es + cnf)
  }

  /** svc_LedEh_timerCallback for LED id: the timer only runs while a
      pattern is held. */
  function TimerExpiry(e: Eh, id: nat): (r: (Eh, seq<Effect>))
    requires Valid(e) && id < |e.leds| && e.leds[id].pattern.Some?
    ensures Valid(r.0) && |r.0.leds| == |e.leds|
    ensures forall i :: 0 <= i < |e.leds| && i != id ==> r.0.leds[i] == e.leds[i]
    ensures r.1 == ProcessPattern(id, e.leds[id]).1
  {
    var (l1, es) := ProcessPattern(id, e.leds[id]);
    (e.(leds := e.leds[id := l1]), es)
  }

  /** The messages svc_LedEh_msgHandler acts on. */
  datatype Msg =
    | ColorReqMsg(from: u8, ledId: nat, color: u32)
    | PatternReqMsg(from: u8, p: Pattern)
    | OtherMsg(id: u16)

  function MsgHandler(e: Eh, m: Msg): (r: (Eh, seq<Effect>))
    requires Valid(e) && (m.PatternReqMsg? ==> ValidPattern(m.p))
    ensures Valid(r.0)
    ensures m.OtherMsg? ==> r == (e, [])
  {
    match m
    case ColorReqMsg(from, ledId, color) => ColorReq(e, from, ledId, color)
    case PatternReqMsg(from, p) => PatternReq(e, from, p)
    case OtherMsg(_) => (e, [])
  }

  // ---------------------------------------------------------------------
  // Playing a pattern

  /** The colours a run of effects shows. */
  function Colors(es: seq<Effect>): seq<u32> {
    if es == [] then []
    else (if es[0].SetColor? then [es[0].color] else []) + Colors(es[1..])
  }

  lemma {:induction false} ColorsAppend(a: seq<Effect>, b: seq<Effect>)
    ensures Colors(a + b) == Colors(a) + Colors(b)
  {
    if a == [] {
      assert a + b == b;
    } else {
      assert (a + b)[0] == a[0] && (a + b)[1..] == a[1..] + b;
      ColorsAppend(a[1..], b);
    }
  }

  function ElemColors(elems: seq<Element>): (r: seq<u32>)
    ensures |r| == |elems| && forall i :: 0 <= i < |elems| ==> r[i] == elems[i].color
  {
    seq(|elems|, i requires 0 <= i < |elems| => elems[i].color)
  }

  /** k further timer expiries of one LED, while its pattern is held. */
  function Expiries(id: nat, l: LedInfo, k: nat): (r: (LedInfo, seq<Effect>))
    requires InfoOk(id, l)
    ensures InfoOk(id, r.0)
    decreases k
  {
    if k == 0 || l.pattern.None? then (l, [])
    else
      var (l1, e1) := ProcessPattern(id, l);
      var (l2, e2) := Expiries(id, l1, k - 1);
      (l2, e1 + e2)
  }

  /** One expiry, then k - 1 more. */
  lemma ExpiriesStep(id: nat, l: LedInfo, k: nat)
    requires InfoOk(id, l) && l.pattern.Some? && k > 0
    ensures var s := ProcessPattern(id, l);
            var t := Expiries(id, s.0, k - 1);
            Expiries(id, l, k) == (t.0, s.1 + t.1)
  {
  }

  /** Showing an element shows its colour; releasing shows none. */
  lemma ColorsOfStep(id: nat, color: u32, ms: u32, msg: nat)
    ensures Colors([SetColor(id, color), TimerStart(id, ms)]) == [color]
    ensures Colors([Release(msg)]) == []
  {
    var show := [SetColor(id, color), TimerStart(id, ms)];
    assert show[1..] == [TimerStart(id, ms)] && [TimerStart(id, ms)][1..] == [];
    assert Colors([TimerStart(id, ms)]) == [];
    assert Colors(show) == [color] + Colors([TimerStart(id, ms)]);
    assert [Release(msg)][1..] == [];
  }

  /** From element c on, the remaining expiries show the remaining
      colours in order, then release the message and stop. */
  lemma {:induction false} PlaysRest(id: nat, p: Pattern, c: nat, col: u32)
    requires ValidPattern(p) && p.ledId == id && c <= |p.elems|
    ensures var r := Expiries(id, LedInfo(col, c, Some(p)), |p.elems| - c + 1);
            && r.0.pattern.None?
            && Colors(r.1) == ElemColors(p.elems)[c..]
            && Release(p.msg) in r.1
    decreases |p.elems| - c
  {
    var l := LedInfo(col, c, Some(p));
    var s := ProcessPattern(id, l);
    var k := |p.elems| - c + 1;
    ExpiriesStep(id, l, k);
    var t := Expiries(id, s.0, k - 1);
    ColorsAppend(s.1, t.1);
    if c < |p.elems| {
      var el := p.elems[c];
      assert s.0 == LedInfo(el.color, c + 1, Some(p));
      assert s.1 == [SetColor(id, el.color), TimerStart(id, el.msTime)];
      assert t == Expiries(id, LedInfo(el.color, c + 1, Some(p)), |p.elems| - (c + 1) + 1);
      PlaysRest(id, p, c + 1, el.color);
      ColorsOfStep(id, el.color, el.msTime, p.msg);
      ElemColorsFrom(p.elems, c);
    } else {
      assert s.1 == [Release(p.msg)] && t.1 == [];
      ColorsOfStep(id, col, 0, p.msg);
    }
  }

  lemma ElemColorsFrom(elems: seq<Element>, c: nat)
    requires c < |elems|
    ensures ElemColors(elems)[c..] == [elems[c].color] + ElemColors(elems)[c + 1..]
  {
  }

  /** The effects of a pattern request: the message is retained and the
      only colour shown is the first element's. */
  lemma PatternReqColors(e: Eh, from: u8, p: Pattern)
    requires Valid(e) && ValidPattern(p) && p.ledId < |e.leds|
    ensures var (e1, es) := PatternReq(e, from, p);
            var l := e.leds[p.ledId];
            var ps := ProcessPattern(p.ledId, LedInfo(l.color, 0, Some(p)));
            && e1.leds[p.ledId] == ps.0 && Retain(p.msg) in es
            && Colors(es) == Colors(ps.1)
            && (Release(p.msg) in ps.1 ==> Release(p.msg) in es)
  {
    var id := p.ledId;
    var l := e.leds[id];
    var rel := if l.pattern.Some? then [Release(l.pattern.value.msg)] else [];
    var cnf := if from != e.self then [Cnf(from, PatternCnf, id)] else [];
    var (l1, ps) := ProcessPattern(id, LedInfo(l.color, 0, Some(p)));
    var (e1, es) := PatternReq(e, from, p);
    assert es == rel + [Retain(p.msg)] + ps + cnf;
    assert Colors(rel) == [] && Colors([Retain(p.msg)]) == [] && Colors(cnf) == [];
    ColorsAppend(rel, [Retain(p.msg)]);
    ColorsAppend(rel + [Retain(p.msg)], ps);
    ColorsAppend(rel + [Retain(p.msg)] + ps, cnf);
  }

  /** A pattern request followed by one expiry per element shows every
      element's colour in order, the first at once, and then releases the
      message it retained. */
  lemma PatternPlaysInOrder(e: Eh, from: u8, p: Pattern)
    requires Valid(e) && ValidPattern(p) && p.ledId < |e.leds|
    ensures var (e1, es) := PatternReq(e, from, p);
            var (l2, fs) := Expiries(p.ledId, e1.leds[p.ledId], |p.elems|);
            && Retain(p.msg) in es
            && Colors(es) + Colors(fs) == ElemColors(p.elems)
            && l2.pattern.None? && Release(p.msg) in es + fs
  {
    var id := p.ledId;
    var start := LedInfo(e.leds[id].color, 0, Some(p));
    var (l1, ps) := ProcessPattern(id, start);
    PatternReqColors(e, from, p);
    PlaysRest(id, p, 0, e.leds[id].color);
    ExpiriesStep(id, start, |p.elems| + 1);
    ColorsAppend(ps, Expiries(id, l1, |p.elems|).1);
  }
}
