/** The LED driver (bsp_Led.c): each LED is a group of GPIO elements, one
    per colour channel, each with its own pin and polarity. Setting a
    colour drives each element fully on when the colour shares any bit
    with the element's channel mask, and fully off otherwise. The GPIO
    writes are returned in order. */
module Led {
  import opened Bytes

  const COLOR_MASK_R: u32 := 0x00FF_0000
  const COLOR_MASK_G: u32 := 0x0000_FF00
  const COLOR_MASK_B: u32 := 0x0000_00FF

  /** bsp_Led_GroupElementInfo_t: the channel mask, the pin and whether the
      element is active high (BSP_LED_POLARITY_ACTIVE_HIGH is 1). */
  datatype Element = Element(color: u32, port: nat, mask: u32, activeHigh: bool)

  /** bsp_Gpio_write(port, mask, value). */
  datatype Write = Write(port: nat, mask: u32, value: u32)

  /** polarity * mask. */
  function OnLevel(e: Element): u32 { if e.activeHigh then e.mask else 0 }

  /** !polarity * mask. */
  function OffLevel(e: Element): u32 { if e.activeHigh then 0 else e.mask }

  /** color & element.color is non-zero. */
  predicate Lit(color: u32, e: Element) {
    (color as bv32 & e.color as bv32) != 0
  }

  /** bsp_Led_setColor: one write per element of the addressed group, in
      table order, and none to any other group. */
  function SetColor(groups: seq<seq<Element>>, id: nat, color: u32): (r: seq<Write>)
    requires id < |groups|
    ensures |r| == |groups[id]|
    ensures forall j :: 0 <= j < |r| ==>
              var e := groups[id][j];
              && r[j].port == e.port && r[j].mask == e.mask
              && r[j].value == (if Lit(color, e) then OnLevel(e) else OffLevel(e))
  {
    seq(|groups[id]|, j requires 0 <= j < |groups[id]| =>
      var e := groups[id][j];
      Write(e.port, e.mask, if Lit(color, e) then OnLevel(e) else OffLevel(e)))
  }

  /** w drives some element of some group to its off level. */
  predicate OffWriteOf(groups: seq<seq<Element>>, w: Write) {
    exists i, j :: 0 <= i < |groups| && 0 <= j < |groups[i]| && w == Off(groups[i])[j]
  }

  /** The number of elements in the groups before group i: where group i's
      writes start in init's output. */
  function Offset(groups: seq<seq<Element>>, i: nat): (n: nat)
    requires i <= |groups|
  {
    if i == 0 then 0 else |groups[0]| + Offset(groups[1..], i - 1)
  }

  /** bsp_Led_init: every element of every group driven to its off level,
      group by group and element by element in table order (the output
      configuration is left out). */
  function Init(groups: seq<seq<Element>>): (r: seq<Write>)
    ensures |r| == Offset(groups, |groups|)
    ensures forall i, j :: 0 <= i < |groups| && 0 <= j < |groups[i]| ==> OffWrittenAt(r, groups, i, j)
    ensures |groups| > 0 ==> |r| >= |groups[0]| && r[..|groups[0]|] == Off(groups[0])
    ensures forall k :: 0 <= k < |r| ==> OffWriteOf(groups, r[k])
  {
    if groups == [] then []
    else
      var rest := Init(groups[1..]);
      var r := Off(groups[0]) + rest;
      assert forall k :: 0 <= k < |groups[0]| ==> r[k] == Off(groups[0])[k];
      assert forall k :: |groups[0]| <= k < |r| ==> r[k] == rest[k - |groups[0]|];
      assert forall k :: 0 <= k < |rest| ==> OffWriteOf(groups[1..], rest[k]) ==> OffWriteOf(groups, rest[k]);
      InitShift(groups, groups[1..], rest, r);
      r
  }

  /** Position Offset(groups, i) + j of the writes drives element j of
      group i to its off level. */
  predicate OffWrittenAt(r: seq<Write>, groups: seq<seq<Element>>, i: nat, j: nat)
    requires i < |groups| && j < |groups[i]|
  {
    var e := groups[i][j];
    Offset(groups, i) + j < |r| && r[Offset(groups, i) + j] == Write(e.port, e.mask, OffLevel(e))
  }

  /** Group i of the groups is group i - 1 of the rest, written after the
      first group's writes. */
  lemma {:induction false} InitShift(groups: seq<seq<Element>>, tail: seq<seq<Element>>, rest: seq<Write>, r: seq<Write>)
    requires |groups| > 0 && tail == groups[1..] && r == Off(groups[0]) + rest
    requires forall i, j :: 0 <= i < |tail| && 0 <= j < |tail[i]| ==> OffWrittenAt(rest, tail, i, j)
    ensures forall i, j :: 0 <= i < |groups| && 0 <= j < |groups[i]| ==> OffWrittenAt(r, groups, i, j)
  {
    forall i, j | 0 <= i < |groups| && 0 <= j < |groups[i]|
      ensures OffWrittenAt(r, groups, i, j)
    {
      if i > 0 {
        assert groups[i] == tail[i - 1];
        assert OffWrittenAt(rest, tail, i - 1, j);
      }
    }
  }

  function Off(g: seq<Element>): (r: seq<Write>)
    ensures |r| == |g| && forall j :: 0 <= j < |g| ==> r[j] == Write(g[j].port, g[j].mask, OffLevel(g[j]))
  {
    seq(|g|, j requires 0 <= j < |g| => Write(g[j].port, g[j].mask, OffLevel(g[j])))
  }

  /** Colour 0 lights nothing: setting it writes exactly what init writes
      for that group. */
  lemma BlackIsInitLevel(groups: seq<seq<Element>>, id: nat)
    requires id < |groups|
    ensures SetColor(groups, id, 0) == Off(groups[id])
    ensures id == 0 ==> Init(groups)[..|groups[0]|] == SetColor(groups, 0, 0)
  {
    forall j | 0 <= j < |groups[id]|
      ensures !Lit(0, groups[id][j])
    {
      assert 0 as bv32 & groups[id][j].color as bv32 == 0;
    }
  }

  /** Group i's writes end within init's output. */
  lemma {:induction false} OffsetWithin(groups: seq<seq<Element>>, i: nat)
    requires i < |groups|
    ensures Offset(groups, i) + |groups[i]| <= Offset(groups, |groups|)
    decreases i
  {
    if i > 0 {
      OffsetWithin(groups[1..], i - 1);
    }
  }

  /** Init leaves every LED as setting it to black would: the writes init
      makes for group i are exactly those of bsp_Led_setColor(i, 0). */
  lemma {:induction false} InitIsBlack(groups: seq<seq<Element>>, i: nat)
    requires i < |groups|
    ensures Offset(groups, i) + |groups[i]| <= |Init(groups)|
    ensures Init(groups)[Offset(groups, i)..Offset(groups, i) + |groups[i]|] == SetColor(groups, i, 0)
  {
    var r, o, g := Init(groups), Offset(groups, i), groups[i];
    OffsetWithin(groups, i);
    var slice := r[o..o + |g|];
    forall j | 0 <= j < |g|
      ensures slice[j] == Off(g)[j]
    {
      assert OffWrittenAt(r, groups, i, j);
    }
    assert slice == Off(g);
    BlackIsInitLevel(groups, i);
  }

  /** Brightness is not modelled by the driver: a colour with a single bit
      of a channel drives that element exactly as full intensity does. */
  lemma AnyOverlapIsFullOn(groups: seq<seq<Element>>, id: nat, color: u32, j: nat)
    requires id < |groups| && j < |groups[id]|
    requires Lit(color, groups[id][j])
    ensures SetColor(groups, id, color)[j] == SetColor(groups, id, groups[id][j].color)[j]
  {
    var e := groups[id][j];
    assert e.color as bv32 & e.color as bv32 == e.color as bv32;
  }

  /** For a pin with a non-empty mask, on and off are different levels
      whatever the polarity, and an active-low element is on when driven
      low. */
  lemma PolarityDecides(e: Element)
    requires e.mask != 0
    ensures OnLevel(e) != OffLevel(e)
    ensures !e.activeHigh ==> OnLevel(e) == 0
  {
  }
}
